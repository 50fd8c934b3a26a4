/** Which parsed frames have the fields the CCMP additional data is made of. */
module CcmpFrames {
  import opened Common
  import opened BitOrder
  import opened Construct
  import opened ConstructLaws
  import opened FieldNames
  import opened WifiGrammar
  import opened WifiLaws
  import opened WifiBits
  import opened WifiFrames
  import opened WifiAccept
  import opened WifiTails
  import opened WifiControl
  import opened Ccmp

  // ---- Fields a grammar does not have -------------------------------------------------------

  predicate HasField(fields: FieldList, name: Name) {
    fields.Field? && (fields.name == name || HasField(fields.rest, name))
  }

  lemma {:induction false} ParseAddsOnlyItsFields(cs: Codecs, fields: FieldList, ctx: Context, scope: Scope, input: bytes, name: Name)
    requires ParseFields(cs, fields, ctx, scope, input).Some? && !HasField(fields, name) && name !in scope
    ensures name !in ParseFields(cs, fields, ctx, scope, input).value.scope
    decreases fields
  {
    if fields.Field? {
      var p := Parse(cs, fields.con, [scope] + ctx, input).value;
      ParseAddsOnlyItsFields(cs, fields.rest, ctx, scope[fields.name := p.value], p.rest, name);
    }
  }

  /** Neither GreedyBytes nor a struct without this field yields it. */
  predicate Lacks(g: Con, name: Name) {
    g.GreedyBytes? || (g.Struct? && !HasField(g.fields, name))
  }

  predicate CasesLack(cases: Cases, name: Name) {
    Lacks(cases.con, name) && (cases.Case? ==> CasesLack(cases.rest, name))
  }

  lemma {:induction false} CaseLacks(cases: Cases, key: int, name: Name)
    requires CasesLack(cases, name)
    ensures Lacks(CaseOf(cases, key), name)
    decreases cases
  {
    if cases.Case? && cases.key != key {
      CaseLacks(cases.rest, key, name);
    }
  }

  lemma LackedField(cs: Codecs, g: Con, ctx: Context, input: bytes, path: seq<Name>)
    requires path != [] && Lacks(g, path[0]) && Parse(cs, g, ctx, input).Some?
    ensures var v := Parse(cs, g, ctx, input).value.value;
            v.Rec? ==> Lookup(v.fields, path) == None
  {
    if g.Struct? {
      ParseAddsOnlyItsFields(cs, g.fields, ctx, map[], input, path[0]);
    }
  }

  /** Four names at a time. */
  lemma FourFields(f: FieldList, name: Name)
    requires f.Field? && f.rest.Field? && f.rest.rest.Field? && f.rest.rest.rest.Field? && !HasField(f.rest.rest.rest.rest, name)
    requires name != f.name && name != f.rest.name && name != f.rest.rest.name && name != f.rest.rest.rest.name
    ensures !HasField(f, name)
  {
    assert !HasField(f.rest.rest, name);
  }

  lemma LongBodiesLackHeader()
    ensures Lacks(ASSOCIATION_RESPONSE, Header) && Lacks(REASSOCIATION_REQUEST, Header) && Lacks(PROBE_RESPONSE, Header)
    ensures Lacks(BEACON, Header) && Lacks(FAREWELL, Header) && Lacks(AUTHENTICATION, Header)
  {
    FourFields(ASSOCIATION_RESPONSE.fields, Header);
    FourFields(REASSOCIATION_REQUEST.fields, Header);
    FourFields(PROBE_RESPONSE.fields, Header);
    FourFields(BEACON.fields, Header);
    FourFields(AUTHENTICATION.fields, Header);
    assert !HasField(FAREWELL.fields.rest, Header);
  }

  lemma ShortBodiesLackHeader()
    ensures Lacks(ASSOCIATION_REQUEST, Header) && Lacks(PROBE_REQUEST, Header) && Lacks(ACTION, Header)
  {
    assert !HasField(ASSOCIATION_REQUEST.fields.rest, Header);
  }

  lemma ManagementLacksHeader()
    ensures CasesLack(MANAGEMENT_CASES, Header)
  {
    LongBodiesLackHeader();
    ShortBodiesLackHeader();
    var c0 := MANAGEMENT_CASES;
    var c2 := c0.rest.rest;
    var c4 := c2.rest.rest;
    var c6 := c4.rest.rest;
    var c8 := c6.rest.rest;
    var c10 := c8.rest.rest;
    var c12 := c10.rest.rest;
    assert CasesLack(c12, Header);
    assert CasesLack(c10, Header);
    assert CasesLack(c8, Header);
    assert CasesLack(c6, Header);
    assert CasesLack(c4, Header);
    assert CasesLack(c2, Header);
    assert CasesLack(c0, Header);
  }

  lemma LookupStep(scope: Scope, name: Name, path: seq<Name>)
    requires path != []
    ensures Lookup(scope, [name] + path)
         == if name in scope && scope[name].Rec? then Lookup(scope[name].fields, path) else None
  {
    assert ([name] + path)[1..] == path;
  }

  // ---- The QoS control field -------------------------------------------------------------------

  const HEADER_PATH: seq<Name> := [Header, QosControl, Tid]

  /** Subtypes of the data frames with a parsed QoS control field. */
  const QOS_WITH_HEADER: set<int> := {8, 9, 10, 11, 12}

  /** The frame around two structs says this subtype. */
  lemma SubtypeAround(scope: Scope, outer: Scope, heading: Scope, frameType: int, subtype: int)
    requires Carries(heading, frameType, subtype)
    ensures Eval([scope, outer, heading], OneOf(Control(Subtype), QOS_SUBTYPES)) == Some(Truth(subtype in QOS_SUBTYPES))
  {
    var ctx := [scope, outer, heading];
    var path := [FrameControl, Subtype];
    assert path[1..] == [Subtype];
    assert ctx[2] == heading;
    assert Lookup(heading, path) == Lookup(heading[FrameControl].fields, [Subtype]) == Some(subtype);
    assert Eval(ctx, Control(Subtype)) == Some(subtype);
  }

  lemma TwoBytesOfBits(cs: Codecs, bits: BitList, ctx: Context, input: bytes)
    requires BitWidth(bits) == 16 && Parse(cs, Construct.BitStruct(false, bits), ctx, input).Some?
    ensures |input| >= 2 && ParseBits(bits, Stream(input[..2], false), map[]).Some?
    ensures Parse(cs, Construct.BitStruct(false, bits), ctx, input).value.value
         == Rec(ParseBits(bits, Stream(input[..2], false), map[]).value)
  {
  }

  lemma TidOfQos(cs: Codecs, ctx: Context, input: bytes)
    requires Parse(cs, QOS_CONTROL, ctx, input).Some?
    ensures |input| >= 2
    ensures var v := Parse(cs, QOS_CONTROL, ctx, input).value.value;
            v.Rec? && Says(v.fields, Tid, input[0] / 16)
  {
    QosWidth();
    TwoBytesOfBits(cs, QOS_BITS, ctx, input);
    QosOfBytes(input[..2]);
  }

  lemma QosWidth()
    ensures BitWidth(QOS_BITS) == 16
  {
  }

  /** The QoS control field of a data header: for the QoS subtypes its tid is the top of the first of these bytes. */
  predicate QosShown(header: Scope, there: bool, at: bytes) {
    && QosControl in header
    && if there then at != [] && header[QosControl].Rec? && Says(header[QosControl].fields, Tid, at[0] / 16)
       else header[QosControl] == Nothing
  }

  /** The frame goes to and from the distribution system as these flags say. */
  predicate Directed(heading: Scope, to: int, from: int) {
    && FrameControl in heading && heading[FrameControl].Rec?
    && Says(heading[FrameControl].fields, ToDs, to) && Says(heading[FrameControl].fields, FromDs, from)
  }

  lemma ControlAround(scope: Scope, outer: Scope, heading: Scope, name: Name, n: int)
    requires FrameControl in heading && heading[FrameControl].Rec? && Says(heading[FrameControl].fields, name, n)
    ensures Eval([scope, outer, heading], Control(name)) == Some(n)
  {
    var ctx := [scope, outer, heading];
    assert [FrameControl, name] == [FrameControl] + [name];
    LookupStep(heading, FrameControl, [name]);
    assert ctx[2] == heading;
  }

  lemma DirectionAround(scope: Scope, outer: Scope, heading: Scope, to: int, from: int)
    requires Directed(heading, to, from)
    ensures Eval([scope, outer, heading], Both(Control(ToDs), Control(FromDs))) == Some(Truth(to != 0 && from != 0))
  {
    ControlAround(scope, outer, heading, ToDs, to);
    ControlAround(scope, outer, heading, FromDs, from);
    var a, b := Control(ToDs), Control(FromDs);
    assert Eval([scope, outer, heading], Both(a, b)) == Some(Truth(to != 0 && from != 0));
  }

  /** Bytes of the fourth address. */
  function FourthAddress(to: int, from: int): nat {
    if to != 0 && from != 0 then 6 else 0
  }

  lemma Address4Takes(cs: Codecs, cond: Expr, ctx: Context, input: bytes, there: bool)
    requires Eval(ctx, cond) == Some(Truth(there)) && Parse(cs, If(cond, MacAddress), ctx, input).Some?
    ensures var k := if there then 6 else 0;
            k <= |input| && Parse(cs, If(cond, MacAddress), ctx, input).value.rest == input[k..]
  {
    ParseIf(cs, cond, MacAddress, ctx, input);
  }

  lemma HeaderShowsQos(cs: Codecs, outer: Scope, heading: Scope, input: bytes, frameType: int, subtype: int, to: int, from: int)
    requires Carries(heading, frameType, subtype) && Directed(heading, to, from)
    requires Parse(cs, DATA_HEADER, [outer, heading], input).Some?
    ensures FourthAddress(to, from) <= |input|
    ensures var v := Parse(cs, DATA_HEADER, [outer, heading], input).value.value;
            v.Rec? && QosShown(v.fields, subtype in QOS_SUBTYPES, input[FourthAddress(to, from)..])
  {
    var ctx, f := [outer, heading], DATA_HEADER.fields;
    var cond := Both(Control(ToDs), Control(FromDs));
    var p0, q0 := FieldStep(cs, Address4, If(cond, MacAddress), f.rest, ctx, map[], input);
    assert [map[]] + ctx == [map[], outer, heading];
    DirectionAround(map[], outer, heading, to, from);
    Address4Takes(cs, cond, [map[]] + ctx, input, to != 0 && from != 0);
    var s1: Scope := map[Address4 := p0.value];
    QosStep(cs, outer, heading, s1, p0.rest, frameType, subtype);
  }

  lemma QosStep(cs: Codecs, outer: Scope, heading: Scope, scope: Scope, input: bytes, frameType: int, subtype: int)
    requires Carries(heading, frameType, subtype)
    requires ParseFields(cs, DATA_HEADER.fields.rest, [outer, heading], scope, input).Some?
    ensures QosShown(ParseFields(cs, DATA_HEADER.fields.rest, [outer, heading], scope, input).value.scope,
                     subtype in QOS_SUBTYPES, input)
  {
    var ctx, f := [outer, heading], DATA_HEADER.fields.rest;
    var cond := OneOf(Control(Subtype), QOS_SUBTYPES);
    var p, q := FieldStep(cs, QosControl, If(cond, QOS_CONTROL), f.rest, ctx, scope, input);
    assert [scope] + ctx == [scope, outer, heading];
    SubtypeAround(scope, outer, heading, frameType, subtype);
    ParseIf(cs, cond, QOS_CONTROL, [scope] + ctx, input);
    if subtype in QOS_SUBTYPES {
      TidOfQos(cs, [scope] + ctx, input);
    }
    FieldsKeep(cs, f.rest, ctx, scope[QosControl := p.value], p.rest);
  }

  /** What a search for the traffic identifier finds. */
  predicate FindsTid(found: Option<int>, there: bool, input: bytes, k: nat) {
    if there then k < |input| && found == Some(input[k] / 16) else found == None
  }

  lemma HeaderPath(scope: Scope, there: bool, at: bytes)
    requires Header in scope && scope[Header].Rec? && QosShown(scope[Header].fields, there, at)
    ensures FindsTid(Lookup(scope, HEADER_PATH), there, at, 0)
  {
    assert HEADER_PATH == [Header] + [QosControl, Tid];
    LookupStep(scope, Header, [QosControl, Tid]);
    assert [QosControl, Tid] == [QosControl] + [Tid];
    LookupStep(scope[Header].fields, QosControl, [Tid]);
  }

  /** The parsed traffic identifier of a data frame's body. */
  lemma BodyShowsTid(cs: Codecs, fields: FieldList, heading: Scope, input: bytes, frameType: int, subtype: int, to: int, from: int)
    requires fields.Field? && fields.name == Header && fields.con == DATA_HEADER
    requires Carries(heading, frameType, subtype) && Directed(heading, to, from)
    requires ParseFields(cs, fields, [heading], map[], input).Some?
    ensures FindsTid(Lookup(ParseFields(cs, fields, [heading], map[], input).value.scope, HEADER_PATH),
                     subtype in QOS_SUBTYPES, input, FourthAddress(to, from))
  {
    var p, q := FieldStep(cs, Header, DATA_HEADER, fields.rest, [heading], map[], input);
    assert [map[]] + [heading] == [map[], heading];
    HeaderShowsQos(cs, map[], heading, input, frameType, subtype, to, from);
    FieldsKeep(cs, fields.rest, [heading], map[Header := p.value], p.rest);
    var scope := ParseFields(cs, fields, [heading], map[], input).value.scope;
    assert scope[Header] == p.value;
    HeaderPath(scope, subtype in QOS_SUBTYPES, input[FourthAddress(to, from)..]);
  }

  lemma DataCase(subtype: int)
    requires 0 <= subtype < 16
    ensures CaseOf(DATA_CASES, subtype)
         == if subtype in {0, 1, 2, 3, 8, 9, 10, 11} then DATA_WITH_BODY
            else if subtype == 13 then GreedyBytes
            else DATA_WITHOUT_BODY
  {
    var c4 := DATA_CASES.rest.rest.rest.rest;
    var c8 := c4.rest.rest.rest.rest;
    var c12 := c8.rest.rest.rest.rest;
    if subtype >= 4 {
      assert CaseOf(DATA_CASES, subtype) == CaseOf(c4, subtype);
      if subtype >= 8 {
        assert CaseOf(c4, subtype) == CaseOf(c8, subtype);
        if subtype >= 12 {
          assert CaseOf(c8, subtype) == CaseOf(c12, subtype);
        }
      }
    }
  }

  /** A data frame's body has a traffic identifier exactly for subtypes 8 to 12. */
  lemma DataBodyTid(cs: Codecs, heading: Scope, input: bytes, subtype: int, to: int, from: int)
    requires 0 <= subtype < 16 && Carries(heading, DATA, subtype) && Directed(heading, to, from)
    requires Parse(cs, CaseOf(DATA_CASES, subtype), [heading], input).Some?
    ensures FindsTid(TidIn(Parse(cs, CaseOf(DATA_CASES, subtype), [heading], input).value.value),
                     subtype in QOS_WITH_HEADER, input, FourthAddress(to, from))
  {
    DataCase(subtype);
    if subtype != 13 {
      BodyShowsTid(cs, CaseOf(DATA_CASES, subtype).fields, heading, input, DATA, subtype, to, from);
    }
  }

  /** The traffic identifier of a frame body. */
  function TidIn(body: Value): Option<int> {
    if body.Rec? then Lookup(body.fields, HEADER_PATH) else None
  }

  lemma FrameTidIs(frame: Scope)
    ensures Lookup(frame, TID_PATH) == if FrameBody in frame then TidIn(frame[FrameBody]) else None
  {
    assert TID_PATH == [FrameBody] + HEADER_PATH;
    LookupStep(frame, FrameBody, HEADER_PATH);
  }

  predicate QosData(input: bytes)
    requires |input| >= 2
  {
    TypeBits(input) == DATA && SubtypeBits(input) in QOS_WITH_HEADER
  }

  /** Where the QoS control field of a QoS data frame starts: after the fourth address, if the frame goes both ways. */
  function QosOffset(input: bytes): nat
    requires |input| >= 2
  {
    24 + FourthAddress(input[1] % 2, input[1] / 2 % 2)
  }

  lemma HeadingDirected(control: Scope, sequence: Scope, input: bytes)
    requires |input| >= 24 && ControlFields(input) == Some(control)
    ensures Directed(Heading(control, sequence, input), input[1] % 2, input[1] / 2 % 2)
  {
    ControlIs(input);
  }

  /** The traffic identifier of a body of any type but control. */
  lemma BodyTid(cs: Codecs, heading: Scope, input: bytes, frameType: int, subtype: int, to: int, from: int)
    requires 0 <= frameType < 4 && frameType != CONTROL && 0 <= subtype < 16
    requires Carries(heading, frameType, subtype) && Directed(heading, to, from)
    requires ParseCase(cs, TYPE_CASES, frameType, [heading], input).Some?
    ensures FindsTid(TidIn(ParseCase(cs, TYPE_CASES, frameType, [heading], input).value.value),
                     frameType == DATA && subtype in QOS_WITH_HEADER, input, FourthAddress(to, from))
  {
    BodyCase(cs, heading, input, frameType, subtype);
    if frameType == DATA {
      DataBodyTid(cs, heading, input, subtype, to, from);
    } else if frameType == MANAGEMENT {
      ManagementLacksHeader();
      CaseLacks(MANAGEMENT_CASES, subtype, Header);
      LackedField(cs, CaseOf(MANAGEMENT_CASES, subtype), [heading], input, HEADER_PATH);
    }
  }

  lemma WithBody(heading: Scope, body: Value)
    ensures Lookup(heading[FrameBody := body], TID_PATH) == TidIn(body)
  {
    FrameTidIs(heading[FrameBody := body]);
  }

  /** The traffic identifier of a frame is that of its body. */
  lemma FrameTid(cs: Codecs, input: bytes) returns (heading: Scope, body: Parsed)
    requires ParseFrame(cs, input).Some? && |input| >= 2 && TypeBits(input) != CONTROL
    ensures |input| >= 24 && Carries(heading, TypeBits(input), SubtypeBits(input))
    ensures Directed(heading, input[1] % 2, input[1] / 2 % 2)
    ensures ParseCase(cs, TYPE_CASES, TypeBits(input), [heading], input[24..]) == Some(body)
    ensures var v := ParseFrame(cs, input).value.value;
            v.Rec? && Lookup(v.fields, TID_PATH) == TidIn(body.value)
  {
    hide ParseFrame, ParseCase, TidIn, TypeBits, SubtypeBits, Heading, Carries, Typed, Directed, ControlFields;
    var control, sequence;
    control, sequence, body := FrameBodyOf(cs, input);
    heading := Heading(control, sequence, input);
    WithBody(heading, body.value);
    HeadingDirected(control, sequence, input);
    HeadingCarries(control, sequence, input, TypeBits(input), SubtypeBits(input));
  }

  lemma HeadingCarries(control: Scope, sequence: Scope, input: bytes, frameType: int, subtype: int)
    requires |input| >= 24 && Typed(control, frameType, subtype)
    ensures Carries(Heading(control, sequence, input), frameType, subtype)
  {
  }

  /** Among the frames that are not control frames, exactly the QoS data frames show a traffic identifier. */
  lemma TidExactlyFor(cs: Codecs, input: bytes)
    requires ParseFrame(cs, input).Some? && |input| >= 2 && TypeBits(input) != CONTROL
    ensures var v := ParseFrame(cs, input).value.value;
            v.Rec? && FindsTid(Lookup(v.fields, TID_PATH), QosData(input), input, QosOffset(input))
  {
    SubtypeRange(input);
    var heading, body := FrameTid(cs, input);
    BodyTid(cs, heading, input[24..], TypeBits(input), SubtypeBits(input), input[1] % 2, input[1] / 2 % 2);
  }
}
