/** The header of data frames, and data frames without a body. */
module WifiHeader {
  import opened Common
  import opened BitOrder
  import opened Construct
  import opened ConstructLaws
  import opened ConstructNames
  import opened ConstructTail
  import opened FieldNames
  import opened WifiGrammar
  import opened WifiLaws
  import opened WifiFixed
  import opened WifiFrames
  import opened WifiTails
  import opened WifiControl
  import opened WifiAccept
  import opened WifiBodies
  import opened CcmpFrames

  // ---- The header, byte by byte -----------------------------------------------------------------

  /** The header's optional fields: the fourth address, QoS control and HT control. */
  datatype Parts = Parts(address: bool, qos: bool, ht: bool)

  function Size(p: Parts): nat {
    Opt(p.address, 6) + Opt(p.qos, 2) + Opt(p.ht, 4)
  }

  /** The parts of a data frame of this subtype, by the second byte of its frame control field. */
  function PartsOf(subtype: int, second: int): Parts {
    Parts(second % 2 != 0 && second / 2 % 2 != 0, subtype in QOS_SUBTYPES, second / 128 != 0)
  }

  /** The heading says this subtype and the flags of this second byte. */
  predicate Flagged(heading: Scope, subtype: int, second: int) {
    && Carries(heading, DATA, subtype) && Directed(heading, second % 2, second / 2 % 2)
    && Says(heading[FrameControl].fields, OrderOrHtc, second / 128)
  }

  function HeaderRecord(at: bytes, p: Parts): Scope {
    map[Address4 := if p.address then MacOf(at, 0) else Nothing,
        QosControl := if p.qos then QosOf(at, Opt(p.address, 6)) else Nothing,
        HtControl := if p.ht then LittleOf(at, Opt(p.address, 6) + Opt(p.qos, 2), 4) else Nothing]
  }

  function QosOf(at: bytes, o: nat): Value {
    QosSixteen();
    BitsOf(QOS_BITS, false, at, o)
  }

  lemma QosSixteen()
    ensures Sixteen(QOS_BITS)
  {
    QosWidth();
    QosNames();
  }

  lemma HeaderNames()
    ensures Unread(map[], DATA_HEADER.fields)
  {
    hide FieldNamesOf, Distinct;
    ThreeNames(DATA_HEADER.fields);
    UnreadNames(DATA_HEADER.fields);
  }

  lemma HeaderShape()
    ensures var f := DATA_HEADER.fields;
            && f.Field? && f.name == Address4 && f.con == If(Both(Control(ToDs), Control(FromDs)), MacAddress)
            && f.rest.Field? && f.rest.name == QosControl && f.rest.con == If(OneOf(Control(Subtype), QOS_SUBTYPES), QOS_CONTROL)
            && f.rest.rest.Field? && f.rest.rest.name == HtControl && f.rest.rest.con == If(Control(OrderOrHtc), IntLittle(4))
            && f.rest.rest.rest == End
  {
  }

  lemma HeaderConditions(scope: Scope, outer: Scope, heading: Scope, subtype: int, second: byte)
    requires Flagged(heading, subtype, second)
    ensures var p, ctx := PartsOf(subtype, second), [scope] + [outer, heading];
            && Eval(ctx, Both(Control(ToDs), Control(FromDs))) == Some(Truth(p.address))
            && Eval(ctx, OneOf(Control(Subtype), QOS_SUBTYPES)) == Some(Truth(p.qos))
            && Eval(ctx, Control(OrderOrHtc)) == Some(Truth(p.ht))
  {
    assert [scope] + [outer, heading] == [scope, outer, heading];
    DirectionAround(scope, outer, heading, second % 2, second / 2 % 2);
    SubtypeAround(scope, outer, heading, DATA, subtype);
    ControlAround(scope, outer, heading, OrderOrHtc, second / 128);
  }

  lemma QosParses(cs: Codecs, ctx: Context, at: bytes, o: nat)
    requires o <= |at|
    ensures ParsesTo(cs, QOS_CONTROL, ctx, at, o, 2, QosOf(at, o))
  {
    hide Parse;
    QosSixteen();
    BitsParse(cs, false, QOS_BITS, ctx, at, o);
  }

  lemma HeaderEnds(cs: Codecs, ctx: Context, scope: Scope, input: bytes)
    ensures ParseFields(cs, End, ctx, scope, input) == Some(ParsedFields(scope, input, []))
  {
  }

  function AfterAddress(at: bytes, p: Parts): Scope {
    map[Address4 := if p.address then MacOf(at, 0) else Nothing]
  }

  function AfterQos(at: bytes, p: Parts): Scope {
    AfterAddress(at, p)[QosControl := if p.qos then QosOf(at, Opt(p.address, 6)) else Nothing]
  }

  lemma AddressStep(cs: Codecs, outer: Scope, heading: Scope, at: bytes, subtype: int, second: byte)
    requires Flagged(heading, subtype, second)
    ensures var p, f := PartsOf(subtype, second), DATA_HEADER.fields;
            && Unread(AfterAddress(at, p), f.rest)
            && ParseFields(cs, f, [outer, heading], map[], at)
               == if Opt(p.address, 6) > |at| then None
                  else ParseFields(cs, f.rest, [outer, heading], AfterAddress(at, p), at[Opt(p.address, 6)..])
  {
    hide Parse, ParseFields, Unread, FieldNamesOf, Flagged, Eval;
    var ctx, f, p := [outer, heading], DATA_HEADER.fields, PartsOf(subtype, second);
    HeaderNames();
    HeaderShape();
    assert at[0..] == at;
    HeaderConditions(map[], outer, heading, subtype, second);
    MacParses(cs, [map[]] + ctx, at, 0);
    OptionalAt(cs, f, Both(Control(ToDs), Control(FromDs)), MacAddress, 6, MacOf(at, 0), ctx, map[], at, 0, p.address, Opt(p.address, 6));
  }

  lemma QosControlStep(cs: Codecs, outer: Scope, heading: Scope, at: bytes, subtype: int, second: byte)
    requires Flagged(heading, subtype, second)
    requires var p := PartsOf(subtype, second); Opt(p.address, 6) <= |at| && Unread(AfterAddress(at, p), DATA_HEADER.fields.rest)
    ensures var p, f := PartsOf(subtype, second), DATA_HEADER.fields.rest;
            var o, next := Opt(p.address, 6), Opt(p.address, 6) + Opt(p.qos, 2);
            && Unread(AfterQos(at, p), f.rest)
            && ParseFields(cs, f, [outer, heading], AfterAddress(at, p), at[o..])
               == if next > |at| then None else ParseFields(cs, f.rest, [outer, heading], AfterQos(at, p), at[next..])
  {
    hide Parse, ParseFields, Unread, FieldNamesOf, Flagged, Eval, QosOf;
    var ctx, f, p := [outer, heading], DATA_HEADER.fields.rest, PartsOf(subtype, second);
    var o, scope := Opt(p.address, 6), AfterAddress(at, p);
    HeaderShape();
    HeaderConditions(scope, outer, heading, subtype, second);
    QosParses(cs, [scope] + ctx, at, o);
    OptionalAt(cs, f, OneOf(Control(Subtype), QOS_SUBTYPES), QOS_CONTROL, 2, QosOf(at, o), ctx, scope, at, o, p.qos, o + Opt(p.qos, 2));
  }

  lemma HtControlStep(cs: Codecs, outer: Scope, heading: Scope, at: bytes, subtype: int, second: byte, o: nat)
    requires Flagged(heading, subtype, second)
    requires var p := PartsOf(subtype, second);
             o == Opt(p.address, 6) + Opt(p.qos, 2) && o <= |at| && Unread(AfterQos(at, p), DATA_HEADER.fields.rest.rest)
    ensures var p := PartsOf(subtype, second);
            ParseFields(cs, DATA_HEADER.fields.rest.rest, [outer, heading], AfterQos(at, p), at[o..])
            == if Size(p) > |at| then None else Some(ParsedFields(HeaderRecord(at, p), at[Size(p)..], []))
  {
    hide Parse, ParseFields, Unread, FieldNamesOf, Flagged, Eval, QosOf;
    var ctx, f, p := [outer, heading], DATA_HEADER.fields.rest.rest, PartsOf(subtype, second);
    var scope := AfterQos(at, p);
    HeaderShape();
    HeaderConditions(scope, outer, heading, subtype, second);
    LittleParses(cs, [scope] + ctx, at, o, 4);
    OptionalAt(cs, f, Control(OrderOrHtc), IntLittle(4), 4, LittleOf(at, o, 4), ctx, scope, at, o, p.ht, Size(p));
    if Size(p) <= |at| {
      HeaderEnds(cs, ctx, scope[HtControl := if p.ht then LittleOf(at, o, 4) else Nothing], at[Size(p)..]);
    }
  }

  lemma HeaderIs(cs: Codecs, ctx: Context, at: bytes)
    ensures Parse(cs, DATA_HEADER, ctx, at)
         == match ParseFields(cs, DATA_HEADER.fields, ctx, map[], at)
            case None => None
            case Some(q) => Some(Parsed(Rec(q.scope), q.rest, q.texts))
  {
    hide Parse, ParseFields;
    StructIs(cs, DATA_HEADER.fields, ctx, at);
  }

  /** The header parses exactly when the bytes of its parts are there, and its fields are those bytes. */
  lemma HeaderParses(cs: Codecs, outer: Scope, heading: Scope, at: bytes, subtype: int, second: byte)
    requires Flagged(heading, subtype, second)
    ensures var p := PartsOf(subtype, second);
            Parse(cs, DATA_HEADER, [outer, heading], at)
            == if Size(p) > |at| then None else Some(Parsed(Rec(HeaderRecord(at, p)), at[Size(p)..], []))
  {
    hide Parse, ParseFields, Unread, FieldNamesOf, Flagged, HeaderRecord, AfterAddress, AfterQos;
    var p := PartsOf(subtype, second);
    HeaderIs(cs, [outer, heading], at);
    AddressStep(cs, outer, heading, at, subtype, second);
    if Opt(p.address, 6) <= |at| {
      QosControlStep(cs, outer, heading, at, subtype, second);
      var o := Opt(p.address, 6) + Opt(p.qos, 2);
      if o <= |at| {
        HtControlStep(cs, outer, heading, at, subtype, second, o);
      }
    }
  }

  // ---- Data frames ---------------------------------------------------------------------------------

  const WITHOUT_BODY: set<int> := {4, 5, 6, 7, 12, 14, 15}

  predicate HasHeader(body: Value, header: Scope) {
    body.Rec? && Header in body.fields && body.fields[Header] == Rec(header)
  }

  /** The body of a data frame with a header: the header and, for most subtypes, all the bytes behind it. */
  function DataBody(at: bytes, p: Parts, subtype: int): Value
    requires Size(p) <= |at|
  {
    if subtype in WITHOUT_BODY then Rec(map[Header := Rec(HeaderRecord(at, p))])
    else Rec(map[Header := Rec(HeaderRecord(at, p)), Body := Data(at[Size(p)..])])
  }

  lemma DataBodyHasHeader(at: bytes, p: Parts, subtype: int)
    requires Size(p) <= |at|
    ensures HasHeader(DataBody(at, p, subtype), HeaderRecord(at, p))
  {
  }

  lemma WithoutBodyParses(cs: Codecs, heading: Scope, at: bytes, subtype: int, second: byte)
    requires Flagged(heading, subtype, second)
    ensures var p, w := PartsOf(subtype, second), Parse(cs, DATA_WITHOUT_BODY, [heading], at);
            w == if Size(p) > |at| then None
                 else Some(Parsed(Rec(map[Header := Rec(HeaderRecord(at, p))]), at[Size(p)..], []))
  {
    hide Flagged, HeaderRecord, PartsOf, Size;
    assert [map[]] + [heading] == [map[], heading];
    HeaderParses(cs, map[], heading, at, subtype, second);
    LastField(cs, DATA_WITHOUT_BODY.fields, [heading], map[], at);
  }

  lemma BodyUnread()
    ensures Unread(map[], DATA_WITH_BODY.fields)
  {
    hide FieldNamesOf, Distinct;
    TwoNames(DATA_WITH_BODY.fields);
    UnreadNames(DATA_WITH_BODY.fields);
  }

  lemma WithBodyParses(cs: Codecs, heading: Scope, at: bytes, subtype: int, second: byte)
    requires Flagged(heading, subtype, second)
    ensures var p, w := PartsOf(subtype, second), Parse(cs, DATA_WITH_BODY, [heading], at);
            w == if Size(p) > |at| then None
                 else Some(Parsed(Rec(map[Header := Rec(HeaderRecord(at, p)), Body := Data(at[Size(p)..])]), [], []))
  {
    hide Flagged, HeaderRecord, PartsOf, Size, Unread, FieldNamesOf;
    var f, p := DATA_WITH_BODY.fields, PartsOf(subtype, second);
    assert [map[]] + [heading] == [map[], heading];
    HeaderParses(cs, map[], heading, at, subtype, second);
    BodyUnread();
    if Size(p) > |at| {
      StopsThere(cs, f, [heading], map[], at);
    } else {
      Onwards(cs, f, [heading], map[], at, Parsed(Rec(HeaderRecord(at, p)), at[Size(p)..], []));
      LastField(cs, f.rest, [heading], map[Header := Rec(HeaderRecord(at, p))], at[Size(p)..]);
    }
  }

  /** The body of a data frame with a header. */
  lemma DataBodyParses(cs: Codecs, heading: Scope, at: bytes, subtype: int, second: byte)
    requires Flagged(heading, subtype, second) && 0 <= subtype < 16 && subtype != 13
    ensures var p, w := PartsOf(subtype, second), ParseCase(cs, TYPE_CASES, DATA, [heading], at);
            && (w.Some? <==> Size(p) <= |at|)
            && (w.Some? ==> && w.value.value == DataBody(at, p, subtype) && w.value.texts == []
                            && w.value.rest == if subtype in WITHOUT_BODY then at[Size(p)..] else [])
  {
    hide Parse, ParseCase, ParseFields, Flagged, HeaderRecord, PartsOf, Size, CaseOf;
    DataBodyCase(cs, heading, at, subtype, second);
    DataCase(subtype);
    if subtype in WITHOUT_BODY {
      WithoutBodyParses(cs, heading, at, subtype, second);
    } else {
      WithBodyParses(cs, heading, at, subtype, second);
    }
  }

  lemma DataBodyCase(cs: Codecs, heading: Scope, at: bytes, subtype: int, second: int)
    requires Flagged(heading, subtype, second)
    ensures ParseCase(cs, TYPE_CASES, DATA, [heading], at) == Parse(cs, CaseOf(DATA_CASES, subtype), [heading], at)
  {
    hide Parse, ParseCase, CaseOf;
    BodyCase(cs, heading, at, DATA, subtype);
  }

  lemma HeadingFlagged(input: bytes, heading: Scope)
    requires |input| >= 24 && TypeBits(input) == DATA && HeadingOf(input) == Some(heading)
    requires Carries(heading, TypeBits(input), SubtypeBits(input))
    ensures Flagged(heading, SubtypeBits(input), input[1])
  {
    hide TypeBits, SubtypeBits, Carries, ControlFields, SequenceFields;
    HeadingDirected(ControlFields(input).value, SequenceFields(input).value, input);
    ControlIs(input);
  }

  /** The parts of a data frame's header. */
  function HeaderParts(input: bytes): Parts
    requires |input| >= 2
  {
    PartsOf(SubtypeBits(input), input[1])
  }

  /** The parsed header of a data frame. */
  function ParsedHeader(frame: Value): Option<Scope> {
    if frame.Rec? && FrameBody in frame.fields && frame.fields[FrameBody].Rec?
       && Header in frame.fields[FrameBody].fields && frame.fields[FrameBody].fields[Header].Rec?
    then Some(frame.fields[FrameBody].fields[Header].fields) else None
  }

  lemma HeaderOfFrame(heading: Scope, body: Parsed, header: Scope)
    requires HasHeader(body.value, header)
    ensures var f := WithHeading(heading, Some(body));
            f.Some? && f.value.value.Rec? && FrameBody in f.value.value.fields && f.value.value.fields[FrameBody] == body.value
    ensures var f := WithHeading(heading, Some(body));
            f.Some? && ParsedHeader(f.value.value) == Some(header) && f.value.rest == body.rest && f.value.texts == body.texts
  {
  }

  /** A data frame with a header is accepted exactly when it has 24 bytes and those of its header's parts. */
  lemma DataFrameFollows(cs: Codecs, input: bytes)
    requires |input| >= 2 && TypeBits(input) == DATA && SubtypeBits(input) != 13
    ensures var n, p := 24 + Size(HeaderParts(input)), ParseFrame(cs, input);
            && (p.Some? <==> n <= |input|)
            && (p.Some? ==> && p.value.texts == []
                            && ParsedHeader(p.value.value) == Some(HeaderRecord(input[24..], HeaderParts(input)))
                            && p.value.value.Rec? && FrameBody in p.value.value.fields
                            && p.value.value.fields[FrameBody] == DataBody(input[24..], HeaderParts(input), SubtypeBits(input))
                            && p.value.rest == if SubtypeBits(input) in WITHOUT_BODY then input[n..] else [])
  {
    hide ParseFrame, Parse, ParseCase, ParseFields, TypeBits, SubtypeBits, Carries, Flagged, HeaderRecord, PartsOf, Size, HeadingOf,
         WithHeading, HasHeader, ParsedHeader;
    SubtypeRange(input);
    var u := SubtypeBits(input);
    var p := PartsOf(u, input[1]);
    var heading := FrameFollows(cs, input);
    if |input| >= 24 {
      var at := input[24..];
      var body := ParseCase(cs, TYPE_CASES, DATA, [heading], at);
      HeadingFlagged(input, heading);
      DataBodyParses(cs, heading, at, u, input[1]);
      HeadingChangesNothing(heading, body);
      if body.Some? {
        DataBodyHasHeader(at, p, u);
        HeaderOfFrame(heading, body.value, HeaderRecord(at, p));
        DropDrop(input, 24, Size(p));
      }
    }
  }

  /**
   Data frames without a body are accepted from the length of their header on, and rebuild to
   themselves exactly at that length: 24 bytes, the fourth address with both DS flags, QoS control
   for subtypes 8 to 13, and HT control with the order bit.
   */
  lemma BodilessFramesRebuildExactlyWhen(cs: Codecs, input: bytes)
    requires Lawful(cs) && |input| >= 2 && TypeBits(input) == DATA && SubtypeBits(input) in WITHOUT_BODY
    ensures var n, p := 24 + Size(HeaderParts(input)), ParseFrame(cs, input);
            && (p.Some? <==> n <= |input|)
            && (p.Some? ==> (BuildFrame(cs, p.value.value) == Some(input) <==> |input| == n))
  {
    hide ParseFrame, BuildFrame, TypeBits, SubtypeBits, HeaderRecord, HeaderParts, Size, ParsedHeader;
    DataFrameFollows(cs, input);
    if ParseFrame(cs, input).Some? {
      RebuildCheckPassesExactlyWhen(cs, input);
    }
  }

  /** A null-function frame with one byte too many: it is accepted and does not rebuild. */
  lemma TrailingByteIsLost(cs: Codecs)
    requires Lawful(cs)
    ensures var input: bytes := [0x48, 0] + seq(22, _ => 0) + [7];
            var p := ParseFrame(cs, input);
            && p.Some? && p.value.rest == [7] && BuildFrame(cs, p.value.value) != Some(input)
  {
    hide ParseFrame, BuildFrame, HeaderRecord, ParsedHeader;
    var input: bytes := [0x48, 0] + seq(22, _ => 0) + [7];
    TypeOfFirst(input);
    SubtypeOfFirst(input);
    DataFrameFollows(cs, input);
    BodilessFramesRebuildExactlyWhen(cs, input);
  }

  // ---- Which fields are there ------------------------------------------------------------------------

  predicate Present(header: Scope, name: Name) {
    name in header && header[name] != Nothing
  }

  lemma PartsAreThere(at: bytes, p: Parts)
    requires Size(p) <= |at|
    ensures Present(HeaderRecord(at, p), Address4) <==> p.address
    ensures Present(HeaderRecord(at, p), QosControl) <==> p.qos
    ensures Present(HeaderRecord(at, p), HtControl) <==> p.ht
  {
    if p.qos {
      QosSixteen();
      DistinctBitsParse(QOS_BITS, Stream(at[Opt(p.address, 6)..Opt(p.address, 6) + 2], false), map[]);
    }
  }

  /**
   In an accepted data frame the fourth address is there exactly with both DS flags, QoS control exactly
   for subtypes 8 to 13, and HT control exactly with the order bit: as the condition that names the QoS
   subtypes as well would have it, except where the order bit is set in a frame without QoS.
   */
  lemma HeaderFieldsAreThereExactlyWhen(cs: Codecs, input: bytes) returns (header: Scope)
    requires |input| >= 2 && TypeBits(input) == DATA && SubtypeBits(input) != 13 && ParseFrame(cs, input).Some?
    ensures ParsedHeader(ParseFrame(cs, input).value.value) == Some(header)
    ensures Present(header, Address4) <==> input[1] % 2 == 1 && input[1] / 2 % 2 == 1
    ensures Present(header, QosControl) <==> 8 <= SubtypeBits(input) < 14
    ensures Present(header, HtControl) <==> input[1] >= 128
    ensures (Present(header, HtControl) <==> SubtypeBits(input) >= 8 && input[1] >= 128)
            <==> !(SubtypeBits(input) < 8 && input[1] >= 128)
    ensures (Present(header, QosControl) <==> SubtypeBits(input) >= 8) <==> SubtypeBits(input) < 14
  {
    hide ParseFrame, TypeBits, SubtypeBits, HeaderRecord, Size, ParsedHeader;
    SubtypeRange(input);
    DataFrameFollows(cs, input);
    header := HeaderRecord(input[24..], HeaderParts(input));
    PartsAreThere(input[24..], HeaderParts(input));
  }

  /** The order bit alone brings in HT control: a null-function frame without QoS, whose last four bytes become that field. */
  lemma OrderBitBringsHtControl(cs: Codecs) returns (header: Scope)
    ensures var input: bytes := [0x48, 0x80] + seq(22, _ => 0) + [1, 0, 0, 0];
            var p := ParseFrame(cs, input);
            p.Some? && p.value.rest == [] && ParsedHeader(p.value.value) == Some(header) && Present(header, HtControl)
  {
    hide ParseFrame, HeaderRecord, ParsedHeader;
    var input: bytes := [0x48, 0x80] + seq(22, _ => 0) + [1, 0, 0, 0];
    TypeOfFirst(input);
    SubtypeOfFirst(input);
    DataFrameFollows(cs, input);
    header := HeaderFieldsAreThereExactlyWhen(cs, input);
  }
}
