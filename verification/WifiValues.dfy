/** What the fields of an accepted frame hold, as arithmetic on its bytes. */
module WifiValues {
  import opened Common
  import opened Numbers
  import opened BitOrder
  import opened MacText
  import opened Construct
  import opened ConstructLaws
  import opened ConstructLocal
  import opened ConstructNames
  import opened FieldNames
  import opened WifiGrammar
  import opened WifiLaws
  import opened WifiBits
  import opened WifiFixed
  import opened WifiFrames
  import opened WifiControl
  import opened WifiTails
  import opened WifiElements
  import opened WifiLocal
  import opened WifiAccept
  import opened WifiBodies
  import opened WifiHeader
  import opened CcmpFrames
  import opened WifiContents

  // ---- Fields at an offset ----------------------------------------------------------------------

  /** The field is the text of the address at `o`. */
  predicate AddressAt(scope: Scope, name: Name, at: bytes, o: nat)
    requires o + 6 <= |at|
  {
    name in scope && scope[name] == Text(AddressText(at[o..o + 6]))
  }

  /** Capability information out of the two bytes at `o`. */
  predicate CapabilitiesAt(scope: Scope, at: bytes, o: nat)
    requires o + 2 <= |at|
  {
    CapabilityInfo in scope && scope[CapabilityInfo].Rec? && CapabilitySays(scope[CapabilityInfo].fields, at[o], at[o + 1])
  }

  predicate DataFrom(scope: Scope, name: Name, at: bytes) {
    name in scope && scope[name] == Data(at)
  }

  // ---- The header ----------------------------------------------------------------------------------

  predicate ControlAt(f: Scope, input: bytes)
    requires |input| >= 2
  {
    FrameControl in f && f[FrameControl].Rec? && ControlSays(f[FrameControl].fields, input[0], input[1])
  }

  predicate SequenceAt(f: Scope, input: bytes)
    requires |input| >= 24
  {
    SequenceControl in f && f[SequenceControl].Rec? && SequenceSays(f[SequenceControl].fields, input[22], input[23])
  }

  predicate Absent(f: Scope, name: Name) {
    name in f && f[name] == Nothing
  }

  /** The header of a frame that is not a control frame. */
  predicate HeadingSays(f: Scope, input: bytes)
    requires |input| >= 24
  {
    && ControlAt(f, input) && Says(f, DurationId, U16(input, 2))
    && AddressAt(f, Address1, input, 4) && AddressAt(f, Address2, input, 10) && AddressAt(f, Address3, input, 16)
    && Absent(f, ControlData) && SequenceAt(f, input)
  }

  /** The whole of a control frame: what follows its one address is opaque. */
  predicate ControlFrameSays(f: Scope, input: bytes)
    requires |input| >= 10
  {
    && ControlAt(f, input) && Says(f, DurationId, U16(input, 2)) && AddressAt(f, Address1, input, 4)
    && Absent(f, Address2) && Absent(f, Address3) && DataFrom(f, ControlData, input[10..])
    && Absent(f, SequenceControl) && Absent(f, FrameBody)
  }

  lemma SequenceIs(input: bytes)
    requires |input| >= 24 && SequenceFields(input).Some?
    ensures SequenceSays(SequenceFields(input).value, input[22], input[23])
  {
    var s := input[22..24];
    SequenceAgreesWithShiftAndMask(input);
    SequenceNumberIsShift(input);
    LittleTwo(input, 22);
    ShiftNibble(LittleEndian(s));
    LowFour(LittleEndian(s));
    WordNibbles(input[22], input[23]);
  }

  lemma WordNibbles(lo: byte, hi: byte)
    ensures (lo as int + 0x100 * (hi as int)) % 16 == lo % 16
    ensures (lo as int + 0x100 * (hi as int)) / 16 == lo / 16 + 16 * (hi as int)
  {
    var q, r := lo / 16, lo % 16;
    assert lo as int + 0x100 * (hi as int) == 16 * (q + 16 * (hi as int)) + r;
  }

  lemma OpeningSays(control: Scope, input: bytes)
    requires |input| >= 10 && ControlSays(control, input[0], input[1])
    ensures var f := Opening(control, input);
            ControlAt(f, input) && Says(f, DurationId, U16(input, 2)) && AddressAt(f, Address1, input, 4)
  {
    hide ControlSays;
    LittleTwo(input, 2);
    MacTextIs(input[4..10]);
  }

  lemma HeadingIs(input: bytes, heading: Scope)
    requires HeadingOf(input) == Some(heading)
    ensures |input| >= 24 && HeadingSays(heading, input)
  {
    hide ControlSays, ControlFields, SequenceFields, SequenceSays, AddressText;
    var control := ControlFields(input).value;
    ControlIs(input);
    SequenceIs(input);
    OpeningSays(control, input);
    MacTextIs(input[10..16]);
    MacTextIs(input[16..22]);
  }

  /** A control frame, to its last byte. */
  lemma ControlFrameValues(cs: Codecs, input: bytes)
    requires |input| >= 2 && TypeBits(input) == CONTROL && ParseFrame(cs, input).Some?
    ensures |input| >= 10
    ensures var v := ParseFrame(cs, input).value.value;
            v.Rec? && ControlFrameSays(v.fields, input)
  {
    hide ParseFrame, TypeBits, ControlSays, ControlFields, AddressText;
    var fields := ControlFrameFollows(cs, input);
    ControlIs(input);
    OpeningSays(ControlFields(input).value, input);
  }

  // ---- Fixed fields one by one ------------------------------------------------------------------------

  lemma ReadNumber(scope: Scope, f: FieldList, n: nat, at: bytes, o: nat, w: nat)
    requires FixedRead(scope, f, n, at, o) && n >= w > 0 && f.Field? && f.con == IntLittle(w) && o + w <= |at|
    ensures Says(scope, f.name, LittleEndian(at[o..o + w])) && FixedRead(scope, f.rest, n - w, at, o + w)
  {
    hide LittleEndian;
    ReadOne(scope, f, n, at, o);
  }

  lemma ReadU16(scope: Scope, f: FieldList, n: nat, at: bytes, o: nat)
    requires FixedRead(scope, f, n, at, o) && n >= 2 && f.Field? && f.con == IntLittle(2) && o + 2 <= |at|
    ensures Says(scope, f.name, U16(at, o)) && FixedRead(scope, f.rest, n - 2, at, o + 2)
  {
    hide FixedRead;
    ReadNumber(scope, f, n, at, o, 2);
    LittleTwo(at, o);
  }

  lemma ReadU64(scope: Scope, f: FieldList, n: nat, at: bytes, o: nat)
    requires FixedRead(scope, f, n, at, o) && n >= 8 && f.Field? && f.con == IntLittle(8) && o + 8 <= |at|
    ensures Says(scope, f.name, U64(at, o)) && FixedRead(scope, f.rest, n - 8, at, o + 8)
  {
    hide FixedRead;
    ReadNumber(scope, f, n, at, o, 8);
    LittleEight(at, o);
  }

  lemma ReadAddress(scope: Scope, f: FieldList, n: nat, at: bytes, o: nat)
    requires FixedRead(scope, f, n, at, o) && n >= 6 && f.Field? && f.con == MacAddress && o + 6 <= |at|
    ensures AddressAt(scope, f.name, at, o) && FixedRead(scope, f.rest, n - 6, at, o + 6)
  {
    hide FormatMac, AddressText;
    ReadOne(scope, f, n, at, o);
    MacTextIs(at[o..o + 6]);
  }

  lemma ReadCapabilities(scope: Scope, f: FieldList, n: nat, at: bytes, o: nat)
    requires FixedRead(scope, f, n, at, o) && n >= 2 && f.Field? && f.con == CAPABILITY_INFO && f.name == CapabilityInfo
    requires o + 2 <= |at|
    ensures CapabilitiesAt(scope, at, o) && FixedRead(scope, f.rest, n - 2, at, o + 2)
  {
    hide ParseBits, CapabilitySays, BitWidth, Names;
    ReadOne(scope, f, n, at, o);
    CapabilityInfoNames();
    DistinctBitsParse(CAPABILITY_BITS, Stream(at[o..o + 2], true), map[]);
    CapabilityOfBytes(at[o..o + 2]);
  }

  // ---- What follows the fixed fields --------------------------------------------------------------------

  /** A list of elements is the same wherever it stands. */
  lemma ElementsAnywhere(cs: Codecs, ctx: Context, input: bytes)
    ensures Parse(cs, ELEMENTS, ctx, input) == Parse(cs, ELEMENTS, [], input)
  {
    hide Parse;
    ElementIsLocal();
    ElementsLocal();
    ParseIsLocal(cs, ELEMENTS, [], ctx, [], input);
    assert [] + ctx == ctx;
  }

  lemma ElementsLocal()
    requires Local(INFORMATION_ELEMENT, 0)
    ensures Local(ELEMENTS, 0)
  {
  }

  /** The elements of these bytes, and the bytes they leave over. */
  ghost function ElementsOfBytes(cs: Codecs, at: bytes): (r: (Value, bytes)) {
    var p := Parse(cs, ELEMENTS, [], at);
    if p.Some? then (p.value.value, p.value.rest) else (Nothing, at)
  }

  /** A vendor element of a farewell: its id, its length and that many bytes. */
  function PlainVendor(at: bytes): Option<Parsed> {
    if |at| < 2 || 2 + at[1] as int > |at| then None
    else
      var n := 2 + at[1] as int;
      Some(Parsed(Rec(map[Id := Num(at[0]), Len := Num(at[1]), Content := Data(at[2..n])]), at[n..], []))
  }

  lemma PlainVendorUnread()
    ensures var f := PLAIN_VENDOR_ELEMENT.fields;
            && Unread(map[], f) && f.Field? && f.con == BYTE && f.name == Id && f.rest.Field? && f.rest.con == BYTE && f.rest.name == Len
            && PLAIN_VENDOR_ELEMENT.Struct? && f.rest.rest.Field? && f.rest.rest.con == FixedBytes(This(Len))
            && f.rest.rest.name == Content && f.rest.rest.rest.End?
  {
    hide FieldNamesOf, Distinct;
    ThreeNames(PLAIN_VENDOR_ELEMENT.fields);
    UnreadNames(PLAIN_VENDOR_ELEMENT.fields);
  }

  lemma PlainVendorIs(cs: Codecs, ctx: Context, at: bytes)
    ensures Parse(cs, PLAIN_VENDOR_ELEMENT, ctx, at) == PlainVendor(at)
  {
    hide Parse, ParseFields, Unread, BYTE, PLAIN_VENDOR_ELEMENT;
    PlainVendorUnread();
    var f := PLAIN_VENDOR_ELEMENT.fields;
    StructIs(cs, f, ctx, at);
    if at == [] {
      NoByteParses(cs, [map[]] + ctx);
      StopsThere(cs, f, ctx, map[], at);
    } else {
      ByteParses(cs, [map[]] + ctx, at);
      Onwards(cs, f, ctx, map[], at, Parsed(Num(at[0]), at[1..], []));
      PlainVendorGoesOn(cs, ctx, at);
    }
  }

  lemma PlainVendorGoesOn(cs: Codecs, ctx: Context, at: bytes)
    requires at != [] && Unread(map[Id := Num(at[0])], PLAIN_VENDOR_ELEMENT.fields.rest)
    ensures ParseFields(cs, PLAIN_VENDOR_ELEMENT.fields.rest, ctx, map[Id := Num(at[0])], at[1..])
         == match PlainVendor(at)
            case None => None
            case Some(p) => Some(ParsedFields(p.value.fields, p.rest, []))
  {
    hide Parse, ParseFields, Unread, BYTE, PLAIN_VENDOR_ELEMENT;
    PlainVendorUnread();
    var f, s1: Scope := PLAIN_VENDOR_ELEMENT.fields, map[Id := Num(at[0])];
    if |at| == 1 {
      assert at[1..] == [];
      NoByteParses(cs, [s1] + ctx);
      StopsThere(cs, f.rest, ctx, s1, at[1..]);
    } else {
      ByteParses(cs, [s1] + ctx, at[1..]);
      assert at[1..][1..] == at[2..];
      Onwards(cs, f.rest, ctx, s1, at[1..], Parsed(Num(at[1]), at[2..], []));
      PlainVendorEnds(cs, ctx, at);
    }
  }

  lemma PlainVendorEnds(cs: Codecs, ctx: Context, at: bytes)
    requires |at| >= 2
    ensures var n := 2 + at[1] as int;
            ParseFields(cs, PLAIN_VENDOR_ELEMENT.fields.rest.rest, ctx, map[Id := Num(at[0]), Len := Num(at[1])], at[2..])
            == if n > |at| then None
               else Some(ParsedFields(map[Id := Num(at[0]), Len := Num(at[1]), Content := Data(at[2..n])], at[n..], []))
  {
    hide Parse, ParseFields;
    var f, scope: Scope := PLAIN_VENDOR_ELEMENT.fields.rest.rest, map[Id := Num(at[0]), Len := Num(at[1])];
    EvalThis(scope, ctx, Len, at[1]);
    BytesParse(cs, This(Len), [scope] + ctx, at[1], at[2..]);
    LastField(cs, f, ctx, scope, at[2..]);
    var n := 2 + at[1] as int;
    if n <= |at| {
      assert at[2..][..n - 2] == at[2..n] && at[2..][n - 2..] == at[n..];
    }
  }

  /** A repeat of those reads as many as are whole. */
  function PlainVendors(at: bytes): (r: (seq<Value>, bytes))
    decreases |at|
  {
    match PlainVendor(at)
    case None => ([], at)
    case Some(p) =>
      var (items, rest) := PlainVendors(p.rest);
      ([p.value] + items, rest)
  }

  lemma {:induction false} PlainVendorsAre(cs: Codecs, ctx: Context, at: bytes)
    ensures var p := ParseGreedy(cs, PLAIN_VENDOR_ELEMENT, ctx, at);
            p.Some? && p.value.value == Listing(PlainVendors(at).0) && p.value.rest == PlainVendors(at).1
    decreases |at|
  {
    hide Parse;
    PlainVendorIs(cs, ctx, at);
    if PlainVendor(at).Some? {
      PlainVendorsAre(cs, ctx, PlainVendor(at).value.rest);
    }
  }

  // ---- Bodies of management frames --------------------------------------------------------------------------

  /** The fixed fields and what follows them. */
  lemma BodyReads(cs: Codecs, g: Con, n: nat, rest: FieldList, ctx: Context, at: bytes) returns (next: Scope, q: ParsedFields)
    requires IsBody(g, n, rest) && Parse(cs, g, ctx, at).Some?
    ensures n <= |at| && Unread(next, rest) && ParseFields(cs, rest, ctx, next, at[n..]) == Some(q)
    ensures Parse(cs, g, ctx, at).value.value == Rec(q.scope) && Parse(cs, g, ctx, at).value.rest == q.rest
    ensures FixedRead(q.scope, g.fields, n, at, 0)
  {
    hide Parse, ParseFields, Unread, FieldNamesOf, FixedThen, AlwaysParses, Distinct, FixedRead, ExtendsScope, AddsOnly;
    UnreadNames(g.fields);
    assert at[0..] == at;
    StructIs(cs, g.fields, ctx, at);
    next := FixedThenParses(cs, g.fields, n, rest, ctx, map[], at, 0);
    q := ParseFields(cs, rest, ctx, next, at[n..]).value;
    FieldsKeep(cs, rest, ctx, next, at[n..]);
    FixedReadStays(next, q.scope, g.fields, n, at, 0);
  }

  /** One field behind the fixed ones. */
  lemma OneBehind(cs: Codecs, f: FieldList, ctx: Context, scope: Scope, at: bytes, q: ParsedFields) returns (p: Parsed)
    requires f.Field? && f.rest.End? && ParseFields(cs, f, ctx, scope, at) == Some(q)
    ensures Parse(cs, f.con, [scope] + ctx, at) == Some(p)
    ensures f.name in q.scope && q.scope[f.name] == p.value && q.rest == p.rest
  {
    var p', q' := FieldStep(cs, f.name, f.con, f.rest, ctx, scope, at);
    p := p';
  }

  /** Two of them: the second one starts where the first one ends. */
  lemma TwoBehind(cs: Codecs, f: FieldList, ctx: Context, scope: Scope, at: bytes, q: ParsedFields) returns (p: Parsed, p2: Parsed)
    requires f.Field? && f.rest.Field? && f.rest.rest.End? && ParseFields(cs, f, ctx, scope, at) == Some(q)
    ensures Parse(cs, f.con, [scope] + ctx, at) == Some(p)
    ensures Parse(cs, f.rest.con, [scope[f.name := p.value]] + ctx, p.rest) == Some(p2)
    ensures f.name in q.scope && q.scope[f.name] == p.value && f.rest.name in q.scope && q.scope[f.rest.name] == p2.value
    ensures q.rest == p2.rest
  {
    hide Parse;
    var p', q' := FieldStep(cs, f.name, f.con, f.rest, ctx, scope, at);
    p := p';
    p2 := OneBehind(cs, f.rest, ctx, scope[f.name := p.value], p.rest, q');
    FieldsKeep(cs, f.rest, ctx, scope[f.name := p.value], p.rest);
  }

  /** The body's list is the elements of these bytes. */
  ghost predicate ElementsFrom(cs: Codecs, body: Scope, at: bytes) {
    InformationElements in body && body[InformationElements] == ElementsOfBytes(cs, at).0
  }

  lemma JustElementsRead(cs: Codecs, ctx: Context, scope: Scope, at: bytes, q: ParsedFields)
    requires ParseFields(cs, JUST_ELEMENTS, ctx, scope, at) == Some(q)
    ensures ElementsFrom(cs, q.scope, at)
  {
    hide Parse, ParseFields;
    var p := OneBehind(cs, JUST_ELEMENTS, ctx, scope, at, q);
    ElementsAnywhere(cs, [scope] + ctx, at);
  }

  /** The body of a management frame of this subtype, off the bytes after the header. */
  ghost predicate BodySays(cs: Codecs, subtype: nat, v: Value, at: bytes) {
    if subtype in RESERVED then v == Data(at)
    else
      && v.Rec?
      && var body := v.fields;
         match subtype
         case 0 =>
           && |at| >= 4 && CapabilitiesAt(body, at, 0) && Says(body, ListenInterval, U16(at, 2)) && ElementsFrom(cs, body, at[4..])
         case 1 => ResponseSays(cs, body, at)
         case 2 =>
           && |at| >= 10 && CapabilitiesAt(body, at, 0) && Says(body, ListenInterval, U16(at, 2))
           && AddressAt(body, CurrentApAddress, at, 4) && ElementsFrom(cs, body, at[10..])
         case 3 => ResponseSays(cs, body, at)
         case 4 => ElementsFrom(cs, body, at)
         case 5 => BeaconSays(cs, body, at)
         case 8 => BeaconSays(cs, body, at) && DataFrom(body, Mme, ElementsOfBytes(cs, at[12..]).1)
         case 11 =>
           && InformationElements !in body
           && |at| >= 6 && Says(body, AuthAlgorithmNumber, U16(at, 0)) && Says(body, AuthTransactionSequenceNumber, U16(at, 2))
           && Says(body, StatusCode, U16(at, 4)) && DataFrom(body, ChallengeText, at[6..])
         case 13 => ActionSays(body, at)
         case 14 => ActionSays(body, at)
         case _ =>
           && InformationElements !in body
           && |at| >= 2 && Says(body, ReasonCode, U16(at, 0))
           && VendorSpecificElements in body && body[VendorSpecificElements] == Listing(PlainVendors(at[2..]).0)
           && DataFrom(body, Mme, PlainVendors(at[2..]).1)
  }

  ghost predicate ResponseSays(cs: Codecs, body: Scope, at: bytes) {
    && |at| >= 6 && CapabilitiesAt(body, at, 0) && Says(body, StatusCode, U16(at, 2)) && Says(body, AssociationId, U16(at, 4))
    && ElementsFrom(cs, body, at[6..])
  }

  ghost predicate BeaconSays(cs: Codecs, body: Scope, at: bytes) {
    && |at| >= 12 && Says(body, Timestamp, U64(at, 0)) && Says(body, BeaconInterval, U16(at, 8)) && CapabilitiesAt(body, at, 10)
    && ElementsFrom(cs, body, at[12..])
  }

  ghost predicate ActionSays(body: Scope, at: bytes) {
    InformationElements !in body && |at| >= 1 && Says(body, Category, at[0]) && DataFrom(body, ActionDetails, at[1..])
  }

  lemma AssociationRequestReads(cs: Codecs, ctx: Context, at: bytes)
    requires Parse(cs, ASSOCIATION_REQUEST, ctx, at).Some?
    ensures BodySays(cs, 0, Parse(cs, ASSOCIATION_REQUEST, ctx, at).value.value, at)
  {
    hide Parse, ParseFields, FixedRead, IsBody, Unread, CapabilitiesAt, ElementsFrom, U16;
    var f := ASSOCIATION_REQUEST.fields;
    AssociationRequest();
    var next, q := BodyReads(cs, ASSOCIATION_REQUEST, 4, JUST_ELEMENTS, ctx, at);
    ReadCapabilities(q.scope, f, 4, at, 0);
    ReadU16(q.scope, f.rest, 2, at, 2);
    JustElementsRead(cs, ctx, next, at[4..], q);
  }

  lemma AssociationResponseReads(cs: Codecs, ctx: Context, at: bytes)
    requires Parse(cs, ASSOCIATION_RESPONSE, ctx, at).Some?
    ensures BodySays(cs, 1, Parse(cs, ASSOCIATION_RESPONSE, ctx, at).value.value, at)
  {
    hide Parse, ParseFields, FixedRead, IsBody, Unread, CapabilitiesAt, ElementsFrom, U16;
    var f := ASSOCIATION_RESPONSE.fields;
    AssociationResponse();
    var next, q := BodyReads(cs, ASSOCIATION_RESPONSE, 6, JUST_ELEMENTS, ctx, at);
    ReadCapabilities(q.scope, f, 6, at, 0);
    ReadU16(q.scope, f.rest, 4, at, 2);
    ReadU16(q.scope, f.rest.rest, 2, at, 4);
    JustElementsRead(cs, ctx, next, at[6..], q);
  }

  lemma ReassociationRequestReads(cs: Codecs, ctx: Context, at: bytes)
    requires Parse(cs, REASSOCIATION_REQUEST, ctx, at).Some?
    ensures BodySays(cs, 2, Parse(cs, REASSOCIATION_REQUEST, ctx, at).value.value, at)
  {
    hide Parse, ParseFields, FixedRead, IsBody, Unread, CapabilitiesAt, AddressAt, ElementsFrom, U16;
    var f := REASSOCIATION_REQUEST.fields;
    ReassociationRequest();
    var next, q := BodyReads(cs, REASSOCIATION_REQUEST, 10, JUST_ELEMENTS, ctx, at);
    ReadCapabilities(q.scope, f, 10, at, 0);
    ReadU16(q.scope, f.rest, 8, at, 2);
    ReadAddress(q.scope, f.rest.rest, 6, at, 4);
    JustElementsRead(cs, ctx, next, at[10..], q);
  }

  lemma ProbeRequestReads(cs: Codecs, ctx: Context, at: bytes)
    requires Parse(cs, PROBE_REQUEST, ctx, at).Some?
    ensures BodySays(cs, 4, Parse(cs, PROBE_REQUEST, ctx, at).value.value, at)
  {
    hide Parse, ParseFields, FixedRead, IsBody, Unread, ElementsFrom;
    ProbeRequest();
    var next, q := BodyReads(cs, PROBE_REQUEST, 0, JUST_ELEMENTS, ctx, at);
    assert at[0..] == at;
    JustElementsRead(cs, ctx, next, at, q);
  }

  /** Time stamp, interval and capabilities. */
  predicate StartsLikeBeacon(f: FieldList) {
    && f.Field? && f.name == Timestamp && f.con == IntLittle(8)
    && f.rest.Field? && f.rest.name == BeaconInterval && f.rest.con == IntLittle(2)
    && var g := f.rest.rest;
       g.Field? && g.name == CapabilityInfo && g.con == CAPABILITY_INFO
  }

  lemma BeaconStarts()
    ensures BEACON.Struct? && StartsLikeBeacon(BEACON.fields) && PROBE_RESPONSE.Struct? && StartsLikeBeacon(PROBE_RESPONSE.fields)
  {
  }

  lemma BeaconFieldsRead(scope: Scope, f: FieldList, at: bytes)
    requires FixedRead(scope, f, 12, at, 0) && |at| >= 12
    requires StartsLikeBeacon(f)
    ensures Says(scope, Timestamp, U64(at, 0)) && Says(scope, BeaconInterval, U16(at, 8)) && CapabilitiesAt(scope, at, 10)
  {
    hide FixedRead, CapabilitiesAt, U16, U64;
    ReadU64(scope, f, 12, at, 0);
    ReadU16(scope, f.rest, 4, at, 8);
    ReadCapabilities(scope, f.rest.rest, 2, at, 10);
  }

  lemma ProbeResponseReads(cs: Codecs, ctx: Context, at: bytes)
    requires Parse(cs, PROBE_RESPONSE, ctx, at).Some?
    ensures BodySays(cs, 5, Parse(cs, PROBE_RESPONSE, ctx, at).value.value, at)
  {
    hide Parse, ParseFields, FixedRead, IsBody, Unread, CapabilitiesAt, ElementsFrom, U16, U64, PROBE_RESPONSE, StartsLikeBeacon;
    BeaconStarts();
    ProbeResponse();
    var next, q := BodyReads(cs, PROBE_RESPONSE, 12, JUST_ELEMENTS, ctx, at);
    BeaconFieldsRead(q.scope, PROBE_RESPONSE.fields, at);
    JustElementsRead(cs, ctx, next, at[12..], q);
  }

  /** A greedy field that ends the body. */
  lemma BytesBehind(cs: Codecs, ctx: Context, at: bytes, p: Parsed)
    requires Parse(cs, GreedyBytes, ctx, at) == Some(p)
    ensures p == Parsed(Data(at), [], [])
  {
  }

  lemma BeaconReads(cs: Codecs, ctx: Context, at: bytes)
    requires Parse(cs, BEACON, ctx, at).Some?
    ensures BodySays(cs, 8, Parse(cs, BEACON, ctx, at).value.value, at)
  {
    hide Parse, ParseFields, FixedRead, IsBody, Unread, CapabilitiesAt, U16, U64, BEACON, ELEMENTS, StartsLikeBeacon;
    var rest := Field(InformationElements, ELEMENTS, Field(Mme, GreedyBytes, End));
    BeaconStarts();
    Beacon();
    var next, q := BodyReads(cs, BEACON, 12, rest, ctx, at);
    BeaconFieldsRead(q.scope, BEACON.fields, at);
    var p, p2 := TwoBehind(cs, rest, ctx, next, at[12..], q);
    ElementsAnywhere(cs, [next] + ctx, at[12..]);
    BytesBehind(cs, [next[InformationElements := p.value]] + ctx, p.rest, p2);
  }

  lemma LacksElements(cs: Codecs, g: Con, ctx: Context, at: bytes)
    requires g.Struct? && !HasField(g.fields, InformationElements) && Parse(cs, g, ctx, at).Some?
    ensures Parse(cs, g, ctx, at).value.value.Rec? && InformationElements !in Parse(cs, g, ctx, at).value.value.fields
  {
    StructIs(cs, g.fields, ctx, at);
    ParseAddsOnlyItsFields(cs, g.fields, ctx, map[], at, InformationElements);
  }

  lemma OthersLackElements()
    ensures !HasField(FAREWELL.fields, InformationElements) && !HasField(ACTION.fields, InformationElements)
    ensures !HasField(AUTHENTICATION.fields, InformationElements)
  {
    assert !HasField(FAREWELL.fields.rest, InformationElements) && !HasField(ACTION.fields.rest, InformationElements);
    FourFields(AUTHENTICATION.fields, InformationElements);
  }

  lemma FarewellReads(cs: Codecs, ctx: Context, at: bytes)
    requires Parse(cs, FAREWELL, ctx, at).Some?
    ensures BodySays(cs, 10, Parse(cs, FAREWELL, ctx, at).value.value, at)
  {
    hide Parse, ParseFields, FixedRead, IsBody, HasField, Unread, U16, PlainVendors;
    var rest := Field(VendorSpecificElements, GreedyRange(PLAIN_VENDOR_ELEMENT), Field(Mme, GreedyBytes, End));
    Farewell();
    OthersLackElements();
    LacksElements(cs, FAREWELL, ctx, at);
    var next, q := BodyReads(cs, FAREWELL, 2, rest, ctx, at);
    ReadU16(q.scope, FAREWELL.fields, 2, at, 0);
    var p, p2 := TwoBehind(cs, rest, ctx, next, at[2..], q);
    RepeatIs(cs, PLAIN_VENDOR_ELEMENT, [next] + ctx, at[2..]);
    PlainVendorsAre(cs, [next] + ctx, at[2..]);
    BytesBehind(cs, [next[VendorSpecificElements := p.value]] + ctx, p.rest, p2);
  }

  lemma RepeatIs(cs: Codecs, item: Con, ctx: Context, at: bytes)
    ensures Parse(cs, GreedyRange(item), ctx, at) == ParseGreedy(cs, item, ctx, at)
  {
  }

  lemma AuthenticationReads(cs: Codecs, ctx: Context, at: bytes)
    requires Parse(cs, AUTHENTICATION, ctx, at).Some?
    ensures BodySays(cs, 11, Parse(cs, AUTHENTICATION, ctx, at).value.value, at)
  {
    hide Parse, ParseFields, FixedRead, IsBody, HasField, Unread, U16;
    var f, rest := AUTHENTICATION.fields, Field(ChallengeText, GreedyBytes, End);
    Authentication();
    OthersLackElements();
    LacksElements(cs, AUTHENTICATION, ctx, at);
    var next, q := BodyReads(cs, AUTHENTICATION, 6, rest, ctx, at);
    ReadU16(q.scope, f, 6, at, 0);
    ReadU16(q.scope, f.rest, 4, at, 2);
    ReadU16(q.scope, f.rest.rest, 2, at, 4);
    var p := OneBehind(cs, rest, ctx, next, at[6..], q);
    BytesBehind(cs, [next] + ctx, at[6..], p);
  }

  lemma ActionReads(cs: Codecs, ctx: Context, at: bytes)
    requires Parse(cs, ACTION, ctx, at).Some?
    ensures BodySays(cs, 13, Parse(cs, ACTION, ctx, at).value.value, at)
  {
    hide Parse, ParseFields, FixedRead, IsBody, HasField, Unread;
    var rest := Field(ActionDetails, GreedyBytes, End);
    Action();
    OthersLackElements();
    LacksElements(cs, ACTION, ctx, at);
    var next, q := BodyReads(cs, ACTION, 1, rest, ctx, at);
    ReadByte(q.scope, ACTION.fields, 1, at, 0);
    var p := OneBehind(cs, rest, ctx, next, at[1..], q);
    BytesBehind(cs, [next] + ctx, at[1..], p);
  }

  lemma LowBodyReads(cs: Codecs, subtype: nat, ctx: Context, at: bytes)
    requires subtype < 6 && Parse(cs, CaseOf(MANAGEMENT_CASES, subtype), ctx, at).Some?
    ensures BodySays(cs, subtype, Parse(cs, CaseOf(MANAGEMENT_CASES, subtype), ctx, at).value.value, at)
  {
    hide Parse, CaseOf, ResponseSays, BeaconSays, ElementsFrom, CapabilitiesAt, AddressAt, U16;
    LowManagementCases(subtype);
    match subtype
    case 0 => AssociationRequestReads(cs, ctx, at);
    case 2 => ReassociationRequestReads(cs, ctx, at);
    case 4 => ProbeRequestReads(cs, ctx, at);
    case 5 => ProbeResponseReads(cs, ctx, at);
    case _ => AssociationResponseReads(cs, ctx, at);
  }

  /** What a management body holds, subtype by subtype. */
  lemma ManagementBodyReads(cs: Codecs, subtype: nat, ctx: Context, at: bytes)
    requires subtype < 16 && Parse(cs, CaseOf(MANAGEMENT_CASES, subtype), ctx, at).Some?
    ensures BodySays(cs, subtype, Parse(cs, CaseOf(MANAGEMENT_CASES, subtype), ctx, at).value.value, at)
  {
    hide Parse, CaseOf, ResponseSays, BeaconSays, ActionSays, ElementsFrom, CapabilitiesAt, AddressAt, U16, PlainVendors;
    if subtype < 6 {
      LowBodyReads(cs, subtype, ctx, at);
    } else {
      HighManagementCases(subtype);
      if subtype in RESERVED {
        BytesBehind(cs, ctx, at, Parse(cs, GreedyBytes, ctx, at).value);
      } else if subtype == 8 {
        BeaconReads(cs, ctx, at);
      } else if subtype == 11 {
        AuthenticationReads(cs, ctx, at);
      } else if subtype == 13 || subtype == 14 {
        ActionReads(cs, ctx, at);
      } else {
        FarewellReads(cs, ctx, at);
      }
    }
  }

  // ---- Bodies of data frames --------------------------------------------------------------------------------

  /** The header of a data frame of this subtype, off the bytes after the frame header; `flags` is the second byte of frame control. */
  predicate HeaderSays(header: Scope, subtype: nat, flags: int, at: bytes) {
    var four := flags % 2 == 1 && flags / 2 % 2 == 1;
    var o := if four then 6 else 0;
    var p := if 8 <= subtype < 14 then o + 2 else o;
    && p + (if flags >= 128 then 4 else 0) <= |at|
    && (if four then AddressAt(header, Address4, at, 0) else Absent(header, Address4))
    && (if 8 <= subtype < 14 then
          QosControl in header && header[QosControl].Rec? && QosSays(header[QosControl].fields, at[o], at[o + 1])
        else Absent(header, QosControl))
    && (if flags >= 128 then Says(header, HtControl, U32(at, p)) else Absent(header, HtControl))
  }

  lemma QosRecord(at: bytes, o: nat)
    requires o + 2 <= |at|
    ensures QosOf(at, o).Rec? && QosSays(QosOf(at, o).fields, at[o], at[o + 1])
  {
    hide ParseBits, QosSays, BitWidth, Names;
    QosSixteen();
    DistinctBitsParse(QOS_BITS, Stream(at[o..o + 2], false), map[]);
    QosOfBytes(at[o..o + 2]);
  }

  lemma HeaderRecordSays(at: bytes, subtype: nat, flags: byte)
    requires Size(PartsOf(subtype, flags)) <= |at|
    ensures HeaderSays(HeaderRecord(at, PartsOf(subtype, flags)), subtype, flags, at)
  {
    hide QosOf, QosSays, AddressText, FormatMac, LittleEndian;
    var p := PartsOf(subtype, flags);
    var o := Opt(p.address, 6);
    if p.address {
      MacTextIs(at[0..6]);
    }
    if p.qos {
      QosRecord(at, o);
    }
    if p.ht {
      LittleFour(at, o + Opt(p.qos, 2));
    }
  }

  /** The body of a data frame: for the reserved subtype the bytes as they are. */
  predicate DataBodySays(v: Value, subtype: nat, flags: int, at: bytes) {
    if subtype == 13 then v == Data(at)
    else
      && v.Rec? && InformationElements !in v.fields
      && Header in v.fields && v.fields[Header].Rec? && HeaderSays(v.fields[Header].fields, subtype, flags, at)
      && if subtype in {4, 5, 6, 7, 12, 14, 15} then Body !in v.fields
         else
           var n := (if flags % 2 == 1 && flags / 2 % 2 == 1 then 6 else 0) + (if subtype >= 8 then 2 else 0)
                    + if flags >= 128 then 4 else 0;
           n <= |at| && DataFrom(v.fields, Body, at[n..])
  }

  lemma DataBodyReads(at: bytes, subtype: nat, flags: byte)
    requires subtype < 16 && subtype != 13 && Size(PartsOf(subtype, flags)) <= |at|
    ensures DataBodySays(DataBody(at, PartsOf(subtype, flags), subtype), subtype, flags, at)
  {
    hide HeaderSays, HeaderRecord;
    HeaderRecordSays(at, subtype, flags);
  }

  // ---- Whole frames -------------------------------------------------------------------------------------------

  /** Everything an accepted frame that is not a control frame holds. */
  ghost predicate FrameSays(cs: Codecs, f: Scope, frameType: nat, subtype: nat, input: bytes)
    requires |input| >= 24
  {
    && HeadingSays(f, input) && FrameBody in f
    && if frameType == MANAGEMENT then BodySays(cs, subtype, f[FrameBody], input[24..])
       else if frameType == DATA then DataBodySays(f[FrameBody], subtype, input[1], input[24..])
       else f[FrameBody] == Data(input[24..])
  }

  lemma HeadingKeeps(heading: Scope, v: Value, input: bytes)
    requires |input| >= 24 && HeadingSays(heading, input)
    ensures HeadingSays(heading[FrameBody := v], input)
  {
    hide ControlSays, SequenceSays, AddressText, U16;
  }

  lemma OpaqueBodyReads(cs: Codecs, heading: Scope, at: bytes, frameType: int, subtype: int)
    requires Carries(heading, frameType, subtype) && (frameType > DATA || (frameType == DATA && subtype == 13))
    ensures ParseCase(cs, TYPE_CASES, frameType, [heading], at) == Some(Parsed(Data(at), [], []))
  {
    hide ParseCase, Carries, CaseOf;
    BodyCase(cs, heading, at, frameType, subtype);
    if frameType == DATA {
      DataCase(subtype);
    }
  }

  lemma FrameValuesOf(cs: Codecs, input: bytes, heading: Scope, body: Value)
    requires HeadingOf(input) == Some(heading) && ParseFrame(cs, input).Some?
    requires ParseFrame(cs, input).value.value == Rec(heading[FrameBody := body])
    requires var t, u := TypeBits(input), SubtypeBits(input);
             if t == MANAGEMENT then BodySays(cs, u, body, input[24..])
             else if t == DATA then DataBodySays(body, u, input[1], input[24..])
             else body == Data(input[24..])
    ensures |input| >= 24
    ensures FrameSays(cs, heading[FrameBody := body], TypeBits(input), SubtypeBits(input), input)
  {
    hide HeadingOf, HeadingSays, BodySays, DataBodySays, TypeBits, SubtypeBits, ParseFrame;
    HeadingIs(input, heading);
    HeadingKeeps(heading, body, input);
  }

  /** Every field of an accepted frame that is not a control frame, off its bytes. */
  lemma FrameValues(cs: Codecs, input: bytes)
    requires |input| >= 2 && TypeBits(input) != CONTROL && ParseFrame(cs, input).Some?
    ensures |input| >= 24 && ParseFrame(cs, input).value.value.Rec?
    ensures FrameSays(cs, ParseFrame(cs, input).value.value.fields, TypeBits(input), SubtypeBits(input), input)
  {
    hide ParseFrame, Parse, ParseCase, TypeBits, SubtypeBits, Carries, HeadingOf, BodySays, DataBodySays, DataBody, CaseOf, FrameSays,
         HeaderRecord, ParsedHeader, Size, PartsOf;
    SubtypeRange(input);
    var t, u := TypeBits(input), SubtypeBits(input);
    var heading := FrameFollows(cs, input);
    var at := input[24..];
    var body := ParseCase(cs, TYPE_CASES, t, [heading], at).value;
    if t == MANAGEMENT {
      ManagementBody(cs, heading, at, u);
      ManagementBodyReads(cs, u, [heading], at);
    } else if t == DATA && u != 13 {
      DataFrameFollows(cs, input);
      DataBodyReads(at, u, input[1]);
    } else {
      OpaqueBodyReads(cs, heading, at, t, u);
      OpaqueDataSays(u, input[1], at);
    }
    FrameValuesOf(cs, input, heading, body.value);
  }

  lemma OpaqueDataSays(subtype: nat, flags: int, at: bytes)
    ensures subtype == 13 ==> DataBodySays(Data(at), subtype, flags, at)
  {
  }
}
