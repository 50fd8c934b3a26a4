/** Bodies of management frames: when they parse, and when nothing is left over. */
module WifiBodies {
  import opened Common
  import opened Construct
  import opened ConstructLaws
  import opened ConstructNames
  import opened ConstructTail
  import opened FieldNames
  import opened WifiGrammar
  import opened WifiLaws
  import opened WifiFixed
  import opened WifiFrames
  import opened WifiAccept
  import opened WifiTails
  import opened WifiControl
  import opened WifiLocal

  // ---- What follows the fixed fields ------------------------------------------------------------

  /** Repeats and bytes to the end parse on every input. */
  predicate NeverFails(con: Con) {
    con.GreedyBytes? || (con.GreedyRange? && HasHead(con.item))
  }

  predicate AlwaysParses(fields: FieldList) {
    fields.Field? ==> NeverFails(fields.con) && AlwaysParses(fields.rest)
  }

  lemma NeverFailingParses(cs: Codecs, con: Con, ctx: Context, input: bytes)
    requires Lawful(cs) && NeverFails(con)
    ensures Parse(cs, con, ctx, input).Some?
  {
    hide HasHead;
    if con.GreedyRange? {
      HeadedAlwaysParse(cs, con.item, ctx, input);
    }
  }

  lemma {:induction false} RestParses(cs: Codecs, fields: FieldList, ctx: Context, scope: Scope, input: bytes)
    requires Lawful(cs) && AlwaysParses(fields) && Unread(scope, fields)
    ensures ParseFields(cs, fields, ctx, scope, input).Some?
    decreases fields
  {
    hide Parse, Unread, NeverFails;
    if fields.Field? {
      NeverFailingParses(cs, fields.con, [scope] + ctx, input);
      var p := Parse(cs, fields.con, [scope] + ctx, input).value;
      UnreadStep(scope, fields, p.value);
      RestParses(cs, fields.rest, ctx, scope[fields.name := p.value], p.rest);
    }
  }

  const JUST_ELEMENTS: FieldList := Field(InformationElements, ELEMENTS, End)

  /** A body of `n` bytes in fixed fields and what parses in any case. */
  predicate IsBody(g: Con, n: nat, rest: FieldList) {
    g.Struct? && FixedThen(g.fields, n, rest) && AlwaysParses(rest) && Distinct(FieldNamesOf(g.fields))
  }

  /**
   Such a body parses exactly when its fixed fields are there, and if only elements follow
   it leaves nothing over exactly when the rest is elements throughout.
   */
  lemma BodyParsesExactlyWhen(cs: Codecs, g: Con, n: nat, rest: FieldList, ctx: Context, at: bytes)
    requires Lawful(cs) && IsBody(g, n, rest)
    ensures var p := Parse(cs, g, ctx, at);
            && (p.Some? <==> n <= |at|)
            && (p.Some? && rest == JUST_ELEMENTS ==> (p.value.rest == [] <==> Elementwise(cs, at[n..])))
  {
    hide Parse, ParseFields, Unread, FieldNamesOf, FixedThen, AlwaysParses, Elementwise, Distinct;
    UnreadNames(g.fields);
    var next := FixedThenParses(cs, g.fields, n, rest, ctx, map[], at, 0);
    assert at[0..] == at;
    StructIs(cs, g.fields, ctx, at);
    if n <= |at| {
      RestParses(cs, rest, ctx, next, at[n..]);
      if rest == JUST_ELEMENTS {
        JustElements(cs, ctx, next, at[n..]);
      }
    }
  }

  lemma JustElements(cs: Codecs, ctx: Context, scope: Scope, at: bytes)
    requires Lawful(cs) && Unread(scope, JUST_ELEMENTS)
    ensures ParseFields(cs, JUST_ELEMENTS, ctx, scope, at).Some?
    ensures ParseFields(cs, JUST_ELEMENTS, ctx, scope, at).value.rest == [] <==> Elementwise(cs, at)
  {
    hide Parse, ParseFields, Unread, Elementwise;
    UnreadStep(scope, JUST_ELEMENTS, Nothing);
    LastField(cs, JUST_ELEMENTS, ctx, scope, at);
    NothingLeftExactlyWhen(cs, [scope] + ctx, at);
  }

  // ---- The bodies of the grammar ---------------------------------------------------------------------

  lemma OneMore(f: FieldList)
    requires f.Field? && NeverFails(f.con) && AlwaysParses(f.rest)
    ensures AlwaysParses(f)
  {
  }

  lemma RepeatsNeverFail()
    ensures NeverFails(ELEMENTS) && NeverFails(GreedyRange(PLAIN_VENDOR_ELEMENT)) && NeverFails(GreedyBytes) && AlwaysParses(End)
  {
    hide HasHead;
    ElementsHaveHeads();
  }

  lemma RestsAlwaysParse()
    ensures AlwaysParses(JUST_ELEMENTS) && AlwaysParses(Field(InformationElements, ELEMENTS, Field(Mme, GreedyBytes, End)))
    ensures AlwaysParses(Field(VendorSpecificElements, GreedyRange(PLAIN_VENDOR_ELEMENT), Field(Mme, GreedyBytes, End)))
    ensures AlwaysParses(Field(ChallengeText, GreedyBytes, End)) && AlwaysParses(Field(ActionDetails, GreedyBytes, End))
  {
    hide NeverFails, AlwaysParses;
    RepeatsNeverFail();
    var mme := Field(Mme, GreedyBytes, End);
    OneMore(mme);
    OneMore(JUST_ELEMENTS);
    OneMore(Field(InformationElements, ELEMENTS, mme));
    OneMore(Field(VendorSpecificElements, GreedyRange(PLAIN_VENDOR_ELEMENT), mme));
    OneMore(Field(ChallengeText, GreedyBytes, End));
    OneMore(Field(ActionDetails, GreedyBytes, End));
  }

  lemma AssociationRequest()
    ensures IsBody(ASSOCIATION_REQUEST, 4, JUST_ELEMENTS)
  {
    hide FixedThen, IsFixed, FixedWidth, AlwaysParses, FieldNamesOf, Distinct;
    RestsAlwaysParse();
    InfoIsFixed();
    NumbersAreFixed(2);
    TwoFixed(ASSOCIATION_REQUEST.fields);
    ThreeNames(ASSOCIATION_REQUEST.fields);
  }

  lemma AssociationResponse()
    ensures IsBody(ASSOCIATION_RESPONSE, 6, JUST_ELEMENTS)
  {
    hide FixedThen, IsFixed, FixedWidth, AlwaysParses, FieldNamesOf, Distinct;
    RestsAlwaysParse();
    InfoIsFixed();
    NumbersAreFixed(2);
    ThreeFixed(ASSOCIATION_RESPONSE.fields);
    FourNames(ASSOCIATION_RESPONSE.fields);
  }

  lemma ReassociationRequest()
    ensures IsBody(REASSOCIATION_REQUEST, 10, JUST_ELEMENTS)
  {
    hide FixedThen, IsFixed, FixedWidth, AlwaysParses, FieldNamesOf, Distinct;
    RestsAlwaysParse();
    InfoIsFixed();
    NumbersAreFixed(2);
    ThreeFixed(REASSOCIATION_REQUEST.fields);
    FourNames(REASSOCIATION_REQUEST.fields);
  }

  lemma ProbeRequest()
    ensures IsBody(PROBE_REQUEST, 0, JUST_ELEMENTS)
  {
    hide AlwaysParses;
    RestsAlwaysParse();
    assert FieldNamesOf(PROBE_REQUEST.fields) == [InformationElements];
  }

  lemma ProbeResponse()
    ensures IsBody(PROBE_RESPONSE, 12, JUST_ELEMENTS)
  {
    hide FixedThen, IsFixed, FixedWidth, AlwaysParses, FieldNamesOf, Distinct;
    RestsAlwaysParse();
    InfoIsFixed();
    NumbersAreFixed(2);
    NumbersAreFixed(8);
    ThreeFixed(PROBE_RESPONSE.fields);
    FourNames(PROBE_RESPONSE.fields);
  }

  lemma Beacon()
    ensures IsBody(BEACON, 12, Field(InformationElements, ELEMENTS, Field(Mme, GreedyBytes, End)))
  {
    hide FixedThen, IsFixed, FixedWidth, AlwaysParses, FieldNamesOf, Distinct;
    RestsAlwaysParse();
    InfoIsFixed();
    NumbersAreFixed(2);
    NumbersAreFixed(8);
    ThreeFixed(BEACON.fields);
    FiveNames(BEACON.fields);
  }

  lemma Farewell()
    ensures IsBody(FAREWELL, 2, Field(VendorSpecificElements, GreedyRange(PLAIN_VENDOR_ELEMENT), Field(Mme, GreedyBytes, End)))
  {
    hide FixedThen, IsFixed, FixedWidth, AlwaysParses, FieldNamesOf, Distinct;
    RestsAlwaysParse();
    NumbersAreFixed(2);
    OneFixed(FAREWELL.fields);
    ThreeNames(FAREWELL.fields);
  }

  lemma Authentication()
    ensures IsBody(AUTHENTICATION, 6, Field(ChallengeText, GreedyBytes, End))
  {
    hide FixedThen, IsFixed, FixedWidth, AlwaysParses, FieldNamesOf, Distinct;
    RestsAlwaysParse();
    NumbersAreFixed(2);
    ThreeFixed(AUTHENTICATION.fields);
    FourNames(AUTHENTICATION.fields);
  }

  lemma Action()
    ensures IsBody(ACTION, 1, Field(ActionDetails, GreedyBytes, End))
  {
    hide FixedThen, IsFixed, FixedWidth, AlwaysParses, FieldNamesOf, Distinct;
    RestsAlwaysParse();
    NumbersAreFixed(1);
    OneFixed(ACTION.fields);
    TwoNames(ACTION.fields);
  }

  lemma LowManagementCases(subtype: nat)
    requires subtype < 6
    ensures CaseOf(MANAGEMENT_CASES, subtype)
         == match subtype
            case 0 => ASSOCIATION_REQUEST
            case 1 => ASSOCIATION_RESPONSE
            case 2 => REASSOCIATION_REQUEST
            case 3 => ASSOCIATION_RESPONSE
            case 4 => PROBE_REQUEST
            case _ => PROBE_RESPONSE
  {
    var c2 := MANAGEMENT_CASES.rest.rest;
    var c4 := c2.rest.rest;
    if subtype >= 2 {
      TwoSkipped(MANAGEMENT_CASES, subtype);
      if subtype >= 4 {
        TwoSkipped(c2, subtype);
      }
    }
  }

  lemma HighManagementCases(subtype: nat)
    requires 6 <= subtype < 16
    ensures CaseOf(MANAGEMENT_CASES, subtype)
         == match subtype
            case 8 => BEACON
            case 10 => FAREWELL
            case 11 => AUTHENTICATION
            case 12 => FAREWELL
            case 13 => ACTION
            case 14 => ACTION
            case _ => GreedyBytes
  {
    var c2 := MANAGEMENT_CASES.rest.rest;
    var c4 := c2.rest.rest;
    var c6 := c4.rest.rest;
    var c8 := c6.rest.rest;
    var c10 := c8.rest.rest;
    TwoSkipped(MANAGEMENT_CASES, subtype);
    TwoSkipped(c2, subtype);
    TwoSkipped(c4, subtype);
    if subtype != 8 && subtype != 10 {
      TwoSkipped(c6, subtype);
      if subtype != 11 && subtype != 12 {
        TwoSkipped(c8, subtype);
        if subtype != 13 && subtype != 14 {
          TwoSkipped(c10, subtype);
        }
      }
    }
  }

  const RESERVED: set<int> := {6, 7, 9, 15}

  /** Bytes of the fixed fields of a management frame, after its header. */
  function FixedPart(subtype: int): nat {
    if subtype == 0 then 4
    else if subtype == 1 || subtype == 3 || subtype == 11 then 6
    else if subtype == 2 then 10
    else if subtype == 5 || subtype == 8 then 12
    else if subtype == 10 || subtype == 12 then 2
    else if subtype == 13 || subtype == 14 then 1
    else 0
  }

  lemma ElementBodies(subtype: nat)
    requires subtype < 6
    ensures IsBody(CaseOf(MANAGEMENT_CASES, subtype), FixedPart(subtype), JUST_ELEMENTS)
  {
    hide IsBody, CaseOf;
    LowManagementCases(subtype);
    AssociationRequest();
    AssociationResponse();
    ReassociationRequest();
    ProbeRequest();
    ProbeResponse();
  }

  lemma OtherBodies(subtype: nat) returns (rest: FieldList)
    requires 6 <= subtype < 16 && subtype !in RESERVED
    ensures IsBody(CaseOf(MANAGEMENT_CASES, subtype), FixedPart(subtype), rest)
  {
    hide IsBody, CaseOf;
    HighManagementCases(subtype);
    Beacon();
    Farewell();
    Authentication();
    Action();
    rest := if subtype == 8 then Field(InformationElements, ELEMENTS, Field(Mme, GreedyBytes, End))
            else if subtype == 11 then Field(ChallengeText, GreedyBytes, End)
            else if subtype == 13 || subtype == 14 then Field(ActionDetails, GreedyBytes, End)
            else Field(VendorSpecificElements, GreedyRange(PLAIN_VENDOR_ELEMENT), Field(Mme, GreedyBytes, End));
  }

  /** The body of a management frame parses exactly when its fixed fields are there. */
  lemma ManagementBodyParses(cs: Codecs, subtype: nat, ctx: Context, at: bytes)
    requires Lawful(cs) && subtype < 16
    ensures var p := Parse(cs, CaseOf(MANAGEMENT_CASES, subtype), ctx, at);
            && (p.Some? <==> FixedPart(subtype) <= |at|)
            && (p.Some? && subtype < 6 ==> (p.value.rest == [] <==> Elementwise(cs, at[FixedPart(subtype)..])))
  {
    hide Parse, Elementwise, IsBody, CaseOf, FixedPart;
    var g, n := CaseOf(MANAGEMENT_CASES, subtype), FixedPart(subtype);
    if subtype < 6 {
      ElementBodies(subtype);
      BodyParsesExactlyWhen(cs, g, n, JUST_ELEMENTS, ctx, at);
    } else if subtype in RESERVED {
      ReservedBody(cs, subtype, ctx, at);
    } else {
      var rest := OtherBodies(subtype);
      BodyParsesExactlyWhen(cs, g, n, rest, ctx, at);
    }
  }

  lemma ReservedBody(cs: Codecs, subtype: nat, ctx: Context, at: bytes)
    requires subtype in RESERVED
    ensures Parse(cs, CaseOf(MANAGEMENT_CASES, subtype), ctx, at).Some? && FixedPart(subtype) == 0
  {
    hide CaseOf;
    HighManagementCases(subtype);
  }

  // ---- Management frames ------------------------------------------------------------------------------

  lemma HeadingChangesNothing(heading: Scope, body: Option<Parsed>)
    ensures WithHeading(heading, body).Some? <==> body.Some?
    ensures body.Some? ==> WithHeading(heading, body).value.rest == body.value.rest
  {
  }

  lemma ManagementBody(cs: Codecs, heading: Scope, input: bytes, subtype: int)
    requires Carries(heading, MANAGEMENT, subtype)
    ensures ParseCase(cs, TYPE_CASES, MANAGEMENT, [heading], input) == Parse(cs, CaseOf(MANAGEMENT_CASES, subtype), [heading], input)
  {
    hide *;
    BodyCase(cs, heading, input, MANAGEMENT, subtype);
  }

  /**
   A management frame is accepted exactly when its header and the fixed fields of its subtype
   are there; association, reassociation and probe frames leave nothing over exactly when every
   byte after those belongs to a whole element.
   */
  lemma ManagementFrameFollows(cs: Codecs, input: bytes)
    requires Lawful(cs) && |input| >= 2 && TypeBits(input) == MANAGEMENT
    ensures var n, p := 24 + FixedPart(SubtypeBits(input)), ParseFrame(cs, input);
            && (p.Some? <==> n <= |input|)
            && (p.Some? && SubtypeBits(input) < 6 ==> (p.value.rest == [] <==> Elementwise(cs, input[n..])))
  {
    hide ParseFrame, Parse, ParseCase, ParseFields, TypeBits, SubtypeBits, Carries, Elementwise, CaseOf, HeadingOf, WithHeading,
         FixedPart;
    SubtypeRange(input);
    var u := SubtypeBits(input);
    var n := FixedPart(u);
    var heading := FrameFollows(cs, input);
    if |input| >= 24 {
      var at := input[24..];
      ManagementBody(cs, heading, at, u);
      ManagementBodyParses(cs, u, [heading], at);
      HeadingChangesNothing(heading, ParseCase(cs, TYPE_CASES, MANAGEMENT, [heading], at));
      if n <= |at| {
        DropDrop(input, 24, n);
      }
    }
  }

  /**
   Association, reassociation and probe frames are accepted exactly when their header and fixed
   fields are there, and rebuild to themselves exactly when every byte after those belongs to
   a whole element and every text rebuilds.
   */
  lemma ElementFramesRebuildExactlyWhen(cs: Codecs, input: bytes)
    requires Lawful(cs) && |input| >= 2 && TypeBits(input) == MANAGEMENT && SubtypeBits(input) < 6
    ensures var n, p := 24 + FixedPart(SubtypeBits(input)), ParseFrame(cs, input);
            && (p.Some? <==> n <= |input|)
            && (p.Some? ==> (BuildFrame(cs, p.value.value) == Some(input)
                             <==> Elementwise(cs, input[n..]) && AllRebuild(cs, p.value.texts)))
  {
    hide ParseFrame, TypeBits, SubtypeBits, Elementwise, AllRebuild, BuildFrame, FixedPart;
    ManagementFrameFollows(cs, input);
    if ParseFrame(cs, input).Some? {
      RebuildCheckPassesExactlyWhen(cs, input);
    }
  }
}
