/** What the content of an information element is, as arithmetic on its bytes. */
module WifiContents {
  import opened Common
  import opened Construct
  import opened ConstructNames
  import opened ConstructTail
  import opened FieldNames
  import opened WifiGrammar
  import opened WifiLaws
  import opened WifiFixed
  import opened WifiTails
  import opened WifiElements
  import opened WifiRsnLayout
  import opened WifiStuck

  // ---- Contents, byte by byte --------------------------------------------------------------------

  /** Two bytes, most significant first. */
  function Big(at: bytes, o: nat): Value
    requires o + 2 <= |at|
  {
    Num(256 * (at[o] as int) + at[o + 1] as int)
  }

  function TextOf(cs: Codecs, raw: bytes): Option<string> {
    if cs.utf8.decode(raw).Some? then cs.utf8.decode(raw)
    else if cs.utf16le.decode(raw).Some? then cs.utf16le.decode(raw)
    else cs.utf16be.decode(raw)
  }

  function SsidContent(cs: Codecs, length: nat, at: bytes): Option<Parsed> {
    if length > |at| || TextOf(cs, at[..length]).None? then None
    else Some(Parsed(Rec(map[Ssid := Text(TextOf(cs, at[..length]).value)]), at[length..], [at[..length]]))
  }

  /** Half the low seven bits in megabits; the top bit marks a basic rate. */
  function RateIn(b: byte): Value {
    if b >= 128 then Rate((b - 128) as real / 2.0, true) else Rate(b as real / 2.0, false)
  }

  function RateValues(s: bytes): (r: seq<Value>) {
    seq(|s|, i requires 0 <= i < |s| => RateIn(s[i]))
  }

  function RatesContent(length: nat, at: bytes): Option<Parsed> {
    if length > |at| then None else Some(Parsed(Rec(map[Rates := Listing(RateValues(at[..length]))]), at[length..], []))
  }

  function HopContent(at: bytes): Option<Parsed> {
    if |at| < 5 then None
    else Some(Parsed(Rec(map[DwellTime := Big(at, 0), HopSet := Num(at[2]), HopPattern := Num(at[3]), HopIndex := Num(at[4])]),
                     at[5..], []))
  }

  function ContentionFreeContent(at: bytes): Option<Parsed> {
    if |at| < 6 then None
    else Some(Parsed(Rec(map[CfpCount := Num(at[0]), CfpPeriod := Num(at[1]), CfpMaxDuration := Big(at, 2),
                             CfpDurRemaining := Big(at, 4)]), at[6..], []))
  }

  function LoadContent(at: bytes): Option<Parsed> {
    if |at| < 5 then None
    else Some(Parsed(Rec(map[StationCount := Big(at, 0), ChannelUtilization := Num(at[2]), AvailableAdmissionCapacity := Big(at, 3)]),
                     at[5..], []))
  }

  function OneByteContent(name: Name, at: bytes): Option<Parsed> {
    if at == [] then None else Some(Parsed(Rec(map[name := Num(at[0])]), at[1..], []))
  }

  function WindowContent(at: bytes): Option<Parsed> {
    if |at| < 2 then None else Some(Parsed(Rec(map[AtimWindow := Big(at, 0)]), at[2..], []))
  }

  function TripletIn(s: bytes, o: nat): Value
    requires o + 3 <= |s|
  {
    Rec(map[FirstChannelNumber := Num(s[o]), NumberOfChannels := Num(s[o + 1]), MaxTransmitPowerLevel := Num(s[o + 2])])
  }

  function TripletValues(s: bytes): (r: seq<Value>) {
    seq(|s| / 3, i requires 0 <= i < |s| / 3 => TripletIn(s, 3 * i))
  }

  /** Three letters and as many whole triplets as the length has room for. */
  function CountryContent(length: nat, at: bytes): Option<Parsed> {
    var n := 3 * (length / 3);
    if length < 3 || n > |at| then None
    else Some(Parsed(Rec(map[CountryString := Data(at[..3]), CountryInfo := Listing(TripletValues(at[3..n]))]), at[n..], []))
  }

  /** Three bytes name the organisation; what follows is Microsoft's 00 50 F2 with a type, or opaque. */
  function VendorContent(length: nat, at: bytes): Option<Parsed> {
    if length < 3 || length > |at| then None
    else if at[0] == 0x00 && at[1] == 0x50 && at[2] == 0xF2 then
      if length < 4 then None
      else Some(Parsed(Rec(map[Oui := Num(0x0050F2),
                               VendorSpecificContent := Rec(map[VendorType := Num(at[3]), OtherFields := Data(at[4..length])])]),
                       at[length..], []))
    else Some(Parsed(Rec(map[Oui := Num(0x1_0000 * (at[0] as int) + 0x100 * (at[1] as int) + at[2] as int),
                             VendorSpecificContent := Data(at[3..length])]),
                     at[length..], []))
  }

  function OpaqueContent(length: nat, at: bytes): Option<Parsed> {
    if length > |at| then None else Some(Parsed(Data(at[..length]), at[length..], []))
  }

  /** The content of an element that is neither an RSN element nor an extension. */
  function ContentOfBytes(cs: Codecs, id: int, length: nat, at: bytes): Option<Parsed> {
    if length == 0 then Some(Parsed(Nothing, at, []))
    else if id == 0 then SsidContent(cs, length, at)
    else if id == 1 || id == 50 then RatesContent(length, at)
    else if id == 2 then HopContent(at)
    else if id == 3 then OneByteContent(CurrentChannel, at)
    else if id == 4 then ContentionFreeContent(at)
    else if id == 6 then WindowContent(at)
    else if id == 7 then CountryContent(length, at)
    else if id == 10 || id == 244 then None
    else if id == 11 then LoadContent(at)
    else if id == 65 then OneByteContent(Rsni, at)
    else if id == 221 then VendorContent(length, at)
    else OpaqueContent(length, at)
  }

  // ---- Contents of fixed width -----------------------------------------------------------------------

  lemma BigIs(at: bytes, o: nat)
    requires o + 2 <= |at|
    ensures BigOf(at, o, 2) == Big(at, o)
  {
    var s := at[o..o + 2];
    assert s[..1] == [s[0]] && s[..1][..0] == [];
    assert BigEndian(s[..1]) == s[0];
  }

  lemma ByteIs(at: bytes, o: nat)
    requires o < |at|
    ensures LittleOf(at, o, 1) == Num(at[o])
  {
    var s := at[o..o + 1];
    assert s[1..] == [];
    assert LittleEndian(s) == s[0];
  }

  lemma FixedStruct(cs: Codecs, g: Con, n: nat, ctx: Context, at: bytes) returns (scope: Scope)
    requires g.Struct? && FixedThen(g.fields, n, End) && Distinct(FieldNamesOf(g.fields))
    ensures Parse(cs, g, ctx, at) == if n > |at| then None else Some(Parsed(Rec(scope), at[n..], []))
    ensures n <= |at| ==> FixedRead(scope, g.fields, n, at, 0) && AddsOnly(scope, map[], g.fields)
  {
    hide FixedThen, FieldNamesOf, Distinct, Parse, FixedRead, AddsOnly;
    UnreadNames(g.fields);
    assert at[0..] == at;
    scope := FixedThenParses(cs, g.fields, n, End, ctx, map[], at, 0);
    StructIs(cs, g.fields, ctx, at);
  }

  lemma BigNumbersAreFixed()
    ensures IsFixed(BYTE) && FixedWidth(BYTE) == 1 && IsFixed(IntBig(2)) && FixedWidth(IntBig(2)) == 2
  {
  }

  lemma MoreFixed(f: FieldList, n: nat)
    requires f.Field? && IsFixed(f.con) && FixedThen(f.rest, n, End)
    ensures FixedThen(f, FixedWidth(f.con) + n, End)
  {
  }

  /** One fixed field, then the others. */
  lemma ReadOne(scope: Scope, f: FieldList, n: nat, at: bytes, o: nat)
    requires FixedRead(scope, f, n, at, o) && n > 0
    ensures f.Field? && IsFixed(f.con) && f.name in scope && scope[f.name] == FixedValue(f.con, at, o)
    ensures FixedWidth(f.con) <= n && FixedRead(scope, f.rest, n - FixedWidth(f.con), at, o + FixedWidth(f.con))
  {
  }

  lemma ReadByte(scope: Scope, f: FieldList, n: nat, at: bytes, o: nat)
    requires FixedRead(scope, f, n, at, o) && n > 0 && f.Field? && f.con == BYTE && o < |at|
    ensures Says(scope, f.name, at[o]) && FixedRead(scope, f.rest, n - 1, at, o + 1)
  {
    ReadOne(scope, f, n, at, o);
    ByteIs(at, o);
  }

  lemma ReadBig(scope: Scope, f: FieldList, n: nat, at: bytes, o: nat)
    requires FixedRead(scope, f, n, at, o) && n > 1 && f.Field? && f.con == IntBig(2) && o + 2 <= |at|
    ensures f.name in scope && scope[f.name] == Big(at, o) && FixedRead(scope, f.rest, n - 2, at, o + 2)
  {
    ReadOne(scope, f, n, at, o);
    BigIs(at, o);
  }

  lemma FourHeld(scope: Scope, f: FieldList, n: seq<Name>, a: Value, b: Value, c: Value, d: Value)
    requires |n| == 4 && FieldNamesOf(f) == [n[0]] + [n[1], n[2], n[3]] && Distinct(n) && AddsOnly(scope, map[], f)
    requires Keeps(scope, n[0], a) && Keeps(scope, n[1], b) && Keeps(scope, n[2], c) && Keeps(scope, n[3], d)
    ensures scope == map[n[0] := a, n[1] := b, n[2] := c, n[3] := d]
  {
  }

  lemma ThreeHeld(scope: Scope, f: FieldList, n: seq<Name>, a: Value, b: Value, c: Value)
    requires |n| == 3 && FieldNamesOf(f) == [n[0]] + [n[1], n[2]] && Distinct(n) && AddsOnly(scope, map[], f)
    requires Keeps(scope, n[0], a) && Keeps(scope, n[1], b) && Keeps(scope, n[2], c)
    ensures scope == map[n[0] := a, n[1] := b, n[2] := c]
  {
  }

  predicate IsHop(f: FieldList) {
    && f.Field? && f.name == DwellTime && f.con == IntBig(2)
    && f.rest.Field? && f.rest.name == HopSet && f.rest.con == BYTE
    && f.rest.rest.Field? && f.rest.rest.name == HopPattern && f.rest.rest.con == BYTE
    && f.rest.rest.rest.Field? && f.rest.rest.rest.name == HopIndex && f.rest.rest.rest.con == BYTE
    && f.rest.rest.rest.rest.End?
  }

  lemma HopShape()
    ensures FH_ELEMENT.Struct? && IsHop(FH_ELEMENT.fields)
  {
  }

  lemma HopRead(scope: Scope, f: FieldList, at: bytes)
    requires IsHop(f) && |at| >= 5 && FixedRead(scope, f, 5, at, 0) && AddsOnly(scope, map[], f)
    ensures Some(Parsed(Rec(scope), at[5..], [])) == HopContent(at)
  {
    hide Distinct, FixedRead, IsFixed, FixedWidth, AddsOnly, FieldNamesOf;
    FourNames(f);
    ReadBig(scope, f, 5, at, 0);
    ReadByte(scope, f.rest, 3, at, 2);
    ReadByte(scope, f.rest.rest, 2, at, 3);
    ReadByte(scope, f.rest.rest.rest, 1, at, 4);
    FourDiffer(DwellTime, HopSet, HopPattern, HopIndex);
    FourHeld(scope, f, [DwellTime, HopSet, HopPattern, HopIndex], Big(at, 0), Num(at[2]), Num(at[3]), Num(at[4]));
  }

  lemma HopParses(cs: Codecs, ctx: Context, at: bytes)
    ensures Parse(cs, FH_ELEMENT, ctx, at) == HopContent(at)
  {
    hide FixedThen, IsFixed, FixedWidth, FieldNamesOf, Distinct, Parse, FixedRead, AddsOnly, FH_ELEMENT;
    HopShape();
    var f := FH_ELEMENT.fields;
    BigNumbersAreFixed();
    OneFixed(f.rest.rest.rest);
    MoreFixed(f.rest.rest, 1);
    MoreFixed(f.rest, 2);
    MoreFixed(f, 3);
    FourNames(f);
    var scope := FixedStruct(cs, FH_ELEMENT, 5, ctx, at);
    if |at| >= 5 {
      HopRead(scope, FH_ELEMENT.fields, at);
    }
  }

  predicate IsContentionFree(f: FieldList) {
    && f.Field? && f.name == CfpCount && f.con == BYTE
    && f.rest.Field? && f.rest.name == CfpPeriod && f.rest.con == BYTE
    && f.rest.rest.Field? && f.rest.rest.name == CfpMaxDuration && f.rest.rest.con == IntBig(2)
    && f.rest.rest.rest.Field? && f.rest.rest.rest.name == CfpDurRemaining && f.rest.rest.rest.con == IntBig(2)
    && f.rest.rest.rest.rest.End?
  }

  lemma ContentionFreeShape()
    ensures CF_ELEMENT.Struct? && IsContentionFree(CF_ELEMENT.fields)
  {
  }

  lemma ContentionFreeRead(scope: Scope, f: FieldList, at: bytes)
    requires IsContentionFree(f) && |at| >= 6 && FixedRead(scope, f, 6, at, 0) && AddsOnly(scope, map[], f)
    ensures Some(Parsed(Rec(scope), at[6..], [])) == ContentionFreeContent(at)
  {
    hide Distinct, FixedRead, IsFixed, FixedWidth, AddsOnly, FieldNamesOf;
    FourNames(f);
    ReadByte(scope, f, 6, at, 0);
    ReadByte(scope, f.rest, 5, at, 1);
    ReadBig(scope, f.rest.rest, 4, at, 2);
    ReadBig(scope, f.rest.rest.rest, 2, at, 4);
    FourDiffer(CfpCount, CfpPeriod, CfpMaxDuration, CfpDurRemaining);
    FourHeld(scope, f, [CfpCount, CfpPeriod, CfpMaxDuration, CfpDurRemaining], Num(at[0]), Num(at[1]), Big(at, 2), Big(at, 4));
  }

  lemma ContentionFreeParses(cs: Codecs, ctx: Context, at: bytes)
    ensures Parse(cs, CF_ELEMENT, ctx, at) == ContentionFreeContent(at)
  {
    hide FixedThen, IsFixed, FixedWidth, FieldNamesOf, Distinct, Parse, FixedRead, AddsOnly, CF_ELEMENT;
    ContentionFreeShape();
    var f := CF_ELEMENT.fields;
    BigNumbersAreFixed();
    OneFixed(f.rest.rest.rest);
    MoreFixed(f.rest.rest, 2);
    MoreFixed(f.rest, 4);
    MoreFixed(f, 5);
    FourNames(f);
    var scope := FixedStruct(cs, CF_ELEMENT, 6, ctx, at);
    if |at| >= 6 {
      ContentionFreeRead(scope, CF_ELEMENT.fields, at);
    }
  }

  predicate IsLoad(f: FieldList) {
    && f.Field? && f.name == StationCount && f.con == IntBig(2)
    && f.rest.Field? && f.rest.name == ChannelUtilization && f.rest.con == BYTE
    && f.rest.rest.Field? && f.rest.rest.name == AvailableAdmissionCapacity && f.rest.rest.con == IntBig(2)
    && f.rest.rest.rest.End?
  }

  lemma LoadShape()
    ensures BSS_LOAD_ELEMENT.Struct? && IsLoad(BSS_LOAD_ELEMENT.fields)
  {
  }

  lemma LoadRead(scope: Scope, f: FieldList, at: bytes)
    requires IsLoad(f) && |at| >= 5 && FixedRead(scope, f, 5, at, 0) && AddsOnly(scope, map[], f)
    ensures Some(Parsed(Rec(scope), at[5..], [])) == LoadContent(at)
  {
    hide Distinct, FixedRead, IsFixed, FixedWidth, AddsOnly, FieldNamesOf;
    ThreeNames(f);
    ReadBig(scope, f, 5, at, 0);
    ReadByte(scope, f.rest, 3, at, 2);
    ReadBig(scope, f.rest.rest, 2, at, 3);
    ThreeDiffer(StationCount, ChannelUtilization, AvailableAdmissionCapacity);
    ThreeHeld(scope, f, [StationCount, ChannelUtilization, AvailableAdmissionCapacity], Big(at, 0), Num(at[2]), Big(at, 3));
  }

  lemma LoadParses(cs: Codecs, ctx: Context, at: bytes)
    ensures Parse(cs, BSS_LOAD_ELEMENT, ctx, at) == LoadContent(at)
  {
    hide FixedThen, IsFixed, FixedWidth, FieldNamesOf, Distinct, Parse, FixedRead, AddsOnly, BSS_LOAD_ELEMENT;
    LoadShape();
    BigNumbersAreFixed();
    ThreeFixed(BSS_LOAD_ELEMENT.fields);
    ThreeNames(BSS_LOAD_ELEMENT.fields);
    var scope := FixedStruct(cs, BSS_LOAD_ELEMENT, 5, ctx, at);
    if |at| >= 5 {
      LoadRead(scope, BSS_LOAD_ELEMENT.fields, at);
    }
  }

  lemma OneFieldParses(cs: Codecs, g: Con, ctx: Context, at: bytes, w: nat, v: Value)
    requires g.Struct? && g.fields.Field? && g.fields.rest.End? && ParsesTo(cs, g.fields.con, [map[]] + ctx, at, 0, w, v)
    ensures Parse(cs, g, ctx, at) == if w > |at| then None else Some(Parsed(Rec(map[g.fields.name := v]), at[w..], []))
  {
    hide Parse;
    assert at[0..] == at;
    StructIs(cs, g.fields, ctx, at);
    LastField(cs, g.fields, ctx, map[], at);
  }

  lemma OneByteParses(cs: Codecs, g: Con, name: Name, ctx: Context, at: bytes)
    requires g == Struct(Field(name, BYTE, End))
    ensures Parse(cs, g, ctx, at) == OneByteContent(name, at)
  {
    hide Parse, LittleOf, LittleEndian;
    LittleParses(cs, [map[]] + ctx, at, 0, 1);
    OneFieldParses(cs, g, ctx, at, 1, LittleOf(at, 0, 1));
    if at != [] {
      ByteIs(at, 0);
    }
  }

  lemma WindowParses(cs: Codecs, ctx: Context, at: bytes)
    ensures Parse(cs, IBSS_ELEMENT, ctx, at) == WindowContent(at)
  {
    hide Parse, BigOf, BigEndian;
    BigParses(cs, [map[]] + ctx, at, 0, 2);
    OneFieldParses(cs, IBSS_ELEMENT, ctx, at, 2, BigOf(at, 0, 2));
    if |at| >= 2 {
      BigIs(at, 0);
    }
  }

  // ---- Contents that ask for the length ---------------------------------------------------------------

  lemma SsidParses(cs: Codecs, ctx: Context, length: nat, at: bytes)
    requires HasLength(ctx, length)
    ensures Parse(cs, SSID_ELEMENT, ctx, at) == SsidContent(cs, length, at)
  {
    EvalLength(map[], ctx, length);
    StructIs(cs, SSID_ELEMENT.fields, ctx, at);
    LastField(cs, SSID_ELEMENT.fields, ctx, map[], at);
    var scope: Scope := map[];
    assert length <= |at| && TextOf(cs, at[..length]).Some? ==>
      scope[Ssid := Text(TextOf(cs, at[..length]).value)] == map[Ssid := Text(TextOf(cs, at[..length]).value)];
  }

  lemma RateIs(b: byte)
    ensures RateOf(b) == RateIn(b)
  {
  }

  /** One item without text, and the others after it. */
  lemma ManyOn(cs: Codecs, item: Con, ctx: Context, n: nat, at: bytes, v: Value, rest: bytes)
    requires n > 0 && Parse(cs, item, ctx, at) == Some(Parsed(v, rest, []))
    ensures ParseMany(cs, item, ctx, n, at)
         == match ParseMany(cs, item, ctx, n - 1, rest)
            case None => None
            case Some(q) => Some(Parsed(Listing([v] + q.value.items), q.rest, q.texts))
  {
    var q := ParseMany(cs, item, ctx, n - 1, rest);
    assert q.Some? ==> [] + q.value.texts == q.value.texts;
  }

  lemma ManyStop(cs: Codecs, item: Con, ctx: Context, n: nat, at: bytes)
    requires n > 0 && Parse(cs, item, ctx, at) == None
    ensures ParseMany(cs, item, ctx, n, at) == None
  {
  }

  lemma RateParses(cs: Codecs, ctx: Context, at: bytes)
    ensures Parse(cs, RateByte, ctx, at) == if at == [] then None else Some(Parsed(RateIn(at[0]), at[1..], []))
  {
    if at != [] {
      RateIs(at[0]);
    }
  }

  lemma RatesOn(at: bytes, n: nat)
    requires 0 < n <= |at|
    ensures RateValues(at[..n]) == [RateIn(at[0])] + RateValues(at[1..][..n - 1]) && at[1..][n - 1..] == at[n..]
  {
    assert at[..n] == [at[0]] + at[1..][..n - 1];
  }

  lemma NoRates(cs: Codecs, ctx: Context, at: bytes)
    ensures ParseMany(cs, RateByte, ctx, 0, at) == Some(Parsed(Listing(RateValues(at[..0])), at[0..], []))
  {
    assert at[0..] == at && RateValues(at[..0]) == [];
  }

  lemma {:induction false} RateListParses(cs: Codecs, ctx: Context, n: nat, at: bytes)
    ensures ParseMany(cs, RateByte, ctx, n, at)
         == if n > |at| then None else Some(Parsed(Listing(RateValues(at[..n])), at[n..], []))
    decreases n
  {
    hide Parse, ParseMany, RateValues, RateIn;
    RateParses(cs, ctx, at);
    if n == 0 {
      NoRates(cs, ctx, at);
    } else if at == [] {
      ManyStop(cs, RateByte, ctx, n, at);
    } else {
      RateListParses(cs, ctx, n - 1, at[1..]);
      ManyOn(cs, RateByte, ctx, n, at, RateIn(at[0]), at[1..]);
      if n <= |at| {
        RatesOn(at, n);
      }
    }
  }

  lemma RatesParse(cs: Codecs, ctx: Context, length: nat, at: bytes)
    requires HasLength(ctx, length)
    ensures Parse(cs, RATES_ELEMENT, ctx, at) == RatesContent(length, at)
  {
    hide RateValues, HasLength;
    EvalLength(map[], ctx, length);
    RateListParses(cs, [map[]] + ctx, length, at);
    StructIs(cs, RATES_ELEMENT.fields, ctx, at);
    LastField(cs, RATES_ELEMENT.fields, ctx, map[], at);
    var scope: Scope := map[];
    assert length <= |at| ==> scope[Rates := Listing(RateValues(at[..length]))] == map[Rates := Listing(RateValues(at[..length]))];
  }

  predicate IsTriplet(f: FieldList) {
    && f.Field? && f.name == FirstChannelNumber && f.con == BYTE
    && f.rest.Field? && f.rest.name == NumberOfChannels && f.rest.con == BYTE
    && f.rest.rest.Field? && f.rest.rest.name == MaxTransmitPowerLevel && f.rest.rest.con == BYTE
    && f.rest.rest.rest.End?
  }

  lemma TripletShape()
    ensures COUNTRY_TRIPLET.Struct? && IsTriplet(COUNTRY_TRIPLET.fields)
  {
  }

  lemma TripletRead(scope: Scope, f: FieldList, at: bytes)
    requires IsTriplet(f) && |at| >= 3 && FixedRead(scope, f, 3, at, 0) && AddsOnly(scope, map[], f)
    ensures Rec(scope) == TripletIn(at, 0)
  {
    hide Distinct, FixedRead, IsFixed, FixedWidth, AddsOnly, FieldNamesOf;
    ThreeNames(f);
    ReadByte(scope, f, 3, at, 0);
    ReadByte(scope, f.rest, 2, at, 1);
    ReadByte(scope, f.rest.rest, 1, at, 2);
    ThreeDiffer(FirstChannelNumber, NumberOfChannels, MaxTransmitPowerLevel);
    ThreeHeld(scope, f, [FirstChannelNumber, NumberOfChannels, MaxTransmitPowerLevel], Num(at[0]), Num(at[1]), Num(at[2]));
  }

  lemma TripletParses(cs: Codecs, ctx: Context, at: bytes)
    ensures Parse(cs, COUNTRY_TRIPLET, ctx, at) == if |at| < 3 then None else Some(Parsed(TripletIn(at, 0), at[3..], []))
  {
    hide FixedThen, IsFixed, FixedWidth, FieldNamesOf, Distinct, Parse, FixedRead, AddsOnly, COUNTRY_TRIPLET;
    TripletShape();
    BigNumbersAreFixed();
    ThreeFixed(COUNTRY_TRIPLET.fields);
    ThreeNames(COUNTRY_TRIPLET.fields);
    var scope := FixedStruct(cs, COUNTRY_TRIPLET, 3, ctx, at);
    if |at| >= 3 {
      TripletRead(scope, COUNTRY_TRIPLET.fields, at);
    }
  }

  lemma TripletsOn(at: bytes, n: nat)
    requires 0 < n && 3 * n <= |at|
    ensures TripletValues(at[..3 * n]) == [TripletIn(at, 0)] + TripletValues(at[3..][..3 * (n - 1)])
    ensures at[3..][3 * (n - 1)..] == at[3 * n..]
  {
    var s, t := at[..3 * n], at[3..][..3 * (n - 1)];
    assert |s| / 3 == n && |t| / 3 == n - 1;
    forall i | 0 <= i < n
      ensures TripletValues(s)[i] == ([TripletIn(at, 0)] + TripletValues(t))[i]
    {
      if i > 0 {
        assert TripletIn(s, 3 * i) == TripletIn(t, 3 * (i - 1));
      }
    }
  }

  lemma {:induction false} TripletListParses(cs: Codecs, ctx: Context, n: nat, at: bytes)
    ensures ParseMany(cs, COUNTRY_TRIPLET, ctx, n, at)
         == if 3 * n > |at| then None else Some(Parsed(Listing(TripletValues(at[..3 * n])), at[3 * n..], []))
    decreases n
  {
    hide Parse, TripletIn, TripletValues;
    if n == 0 {
      NoTriplets(at);
      assert ParseMany(cs, COUNTRY_TRIPLET, ctx, 0, at) == Some(Parsed(Listing([]), at, []));
    } else {
      TripletParses(cs, ctx, at);
      if |at| < 3 {
        ManyStop(cs, COUNTRY_TRIPLET, ctx, n, at);
      } else {
        TripletListParses(cs, ctx, n - 1, at[3..]);
        ManyOn(cs, COUNTRY_TRIPLET, ctx, n, at, TripletIn(at, 0), at[3..]);
        if 3 * n <= |at| {
          TripletsOn(at, n);
        }
      }
    }
  }

  lemma NoTriplets(at: bytes)
    ensures TripletValues(at[..0]) == [] && at[0..] == at
  {
  }

  lemma ThirdOfLength(scope: Scope, ctx: Context, length: nat)
    requires HasLength(ctx, length)
    ensures Eval([scope] + ctx, Third(Plus(LENGTH, Lit(-3)))) == Some((length - 3) / 3)
  {
    EvalLength(scope, ctx, length);
    assert Eval([scope] + ctx, Plus(LENGTH, Lit(-3))) == Some(length - 3);
  }

  lemma CountryShape()
    ensures var f := COUNTRY_ELEMENT.fields;
            && FixedThen(f, 3, f.rest) && f.rest.Field? && f.rest.rest.End?
            && f.rest.con == Array(Third(Plus(LENGTH, Lit(-3))), COUNTRY_TRIPLET) && Distinct(FieldNamesOf(f))
  {
    hide FixedThen, IsFixed, FixedWidth, FieldNamesOf, Distinct;
    NumbersAreFixed(3);
    OneFixed(COUNTRY_ELEMENT.fields);
    TwoNames(COUNTRY_ELEMENT.fields);
  }

  lemma CountryRead(scope: Scope, f: FieldList, at: bytes)
    requires f.Field? && f.name == CountryString && f.con == FixedBytes(Lit(3))
    requires f.rest.Field? && f.rest.name == CountryInfo && f.rest.rest.End?
    requires |at| >= 3 && FixedRead(scope, f, 3, at, 0) && AddsOnly(scope, map[], f) && CountryInfo !in scope
    ensures scope == map[CountryString := Data(at[..3])]
  {
    hide FixedRead, Distinct, FieldNamesOf;
    ReadOne(scope, f, 3, at, 0);
    TwoNames(f);
    assert at[0..3] == at[..3];
  }

  lemma CountryListParses(cs: Codecs, scope: Scope, ctx: Context, length: nat, at: bytes)
    requires HasLength(ctx, length)
    ensures var n := 3 * (length / 3) - 3;
            Parse(cs, Array(Third(Plus(LENGTH, Lit(-3))), COUNTRY_TRIPLET), [scope] + ctx, at)
            == if length < 3 || n > |at| then None else Some(Parsed(Listing(TripletValues(at[..n])), at[n..], []))
  {
    hide TripletValues, HasLength, ParseMany;
    ThirdOfLength(scope, ctx, length);
    if length >= 3 {
      assert 3 * ((length - 3) / 3) == 3 * (length / 3) - 3;
      TripletListParses(cs, [scope] + ctx, (length - 3) / 3, at);
    }
  }

  lemma CountryEnds(cs: Codecs, ctx: Context, length: nat, at: bytes)
    requires HasLength(ctx, length) && |at| >= 3
    ensures var n := 3 * (length / 3);
            ParseFields(cs, COUNTRY_ELEMENT.fields.rest, ctx, map[CountryString := Data(at[..3])], at[3..])
            == if length < 3 || n > |at| then None
               else Some(ParsedFields(map[CountryString := Data(at[..3]), CountryInfo := Listing(TripletValues(at[3..n]))], at[n..], []))
  {
    hide Parse, ParseFields, TripletValues, HasLength;
    var scope: Scope := map[CountryString := Data(at[..3])];
    CountryShape();
    CountryListParses(cs, scope, ctx, length, at[3..]);
    LastField(cs, COUNTRY_ELEMENT.fields.rest, ctx, scope, at[3..]);
    var n := 3 * (length / 3);
    if length >= 3 && n <= |at| {
      assert at[3..][..n - 3] == at[3..n];
      DropDrop(at, 3, n - 3);
    }
  }

  lemma CountryParses(cs: Codecs, ctx: Context, length: nat, at: bytes)
    requires HasLength(ctx, length)
    ensures Parse(cs, COUNTRY_ELEMENT, ctx, at) == CountryContent(length, at)
  {
    hide Parse, ParseFields, FixedThen, Distinct, HasLength, FixedRead, TripletValues, AddsOnly;
    var f := COUNTRY_ELEMENT.fields;
    CountryShape();
    UnreadNames(f);
    assert at[0..] == at;
    StructIs(cs, f, ctx, at);
    var scope := FixedThenParses(cs, f, 3, f.rest, ctx, map[], at, 0);
    if 3 <= |at| {
      TwoNames(f);
      UnreadStep(scope, f.rest, Nothing);
      CountryRead(scope, f, at);
      CountryEnds(cs, ctx, length, at);
    }
  }

  lemma BytesParse(cs: Codecs, length: Expr, ctx: Context, n: int, at: bytes)
    requires Eval(ctx, length) == Some(n)
    ensures Parse(cs, FixedBytes(length), ctx, at) == if 0 <= n <= |at| then Some(Parsed(Data(at[..n]), at[n..], [])) else None
  {
  }

  lemma OpaqueParses(cs: Codecs, id: int, length: nat, ctx: Context, at: bytes)
    ensures Parse(cs, FixedBytes(This(Len)), [ElementHead(id, length)] + ctx, at) == OpaqueContent(length, at)
  {
    hide Parse, Eval;
    assert Len in ElementHead(id, length) && ElementHead(id, length)[Len] == Num(length);
    EvalThis(ElementHead(id, length), ctx, Len, length);
    BytesParse(cs, This(Len), [ElementHead(id, length)] + ctx, length, at);
  }

  // ---- Vendor elements ------------------------------------------------------------------------------------

  /** Two structs inside the element, the length less four. */
  lemma LengthLessFour(scope: Scope, vendor: Scope, ctx: Context, length: nat)
    requires HasLength(ctx, length)
    ensures Eval([scope] + ([vendor] + ctx), Plus(Ref(2, [Len]), Lit(-4))) == Some(length - 4)
  {
    var all := [scope] + ([vendor] + ctx);
    assert all[2] == ctx[0];
    assert Eval(all, Ref(2, [Len])) == Some(length);
  }

  lemma LengthLessThree(scope: Scope, ctx: Context, length: nat)
    requires HasLength(ctx, length)
    ensures Eval([scope] + ctx, Plus(LENGTH, Lit(-3))) == Some(length - 3)
  {
    EvalLength(scope, ctx, length);
  }

  lemma NoByteParses(cs: Codecs, ctx: Context)
    ensures Parse(cs, BYTE, ctx, []) == None
  {
  }

  lemma TypeUnread()
    ensures var f := MICROSOFT_CONTENT.fields;
            && MICROSOFT_CONTENT.Struct? && Unread(map[], f) && f.Field? && f.con == BYTE && f.name == VendorType
            && f.rest.Field? && f.rest.rest.End?
            && f.rest.name == OtherFields && f.rest.con == FixedBytes(Plus(Ref(2, [Len]), Lit(-4)))
  {
    hide FieldNamesOf, Distinct;
    TwoNames(MICROSOFT_CONTENT.fields);
    UnreadNames(MICROSOFT_CONTENT.fields);
  }

  /** A type, then bytes as the length says. */
  lemma MicrosoftParses(cs: Codecs, vendor: Scope, ctx: Context, length: nat, at: bytes)
    requires HasLength(ctx, length)
    ensures Parse(cs, MICROSOFT_CONTENT, [vendor] + ctx, at)
         == if length < 4 || length - 3 > |at| then None
            else Some(Parsed(Rec(map[VendorType := Num(at[0]), OtherFields := Data(at[1..length - 3])]), at[length - 3..], []))
  {
    hide Parse, ParseFields, HasLength, Unread, MICROSOFT_CONTENT, BYTE;
    TypeUnread();
    var f, around := MICROSOFT_CONTENT.fields, [vendor] + ctx;
    StructIs(cs, f, around, at);
    if at == [] {
      NoByteParses(cs, [map[]] + around);
      StopsThere(cs, f, around, map[], at);
    } else {
      var scope: Scope := map[VendorType := Num(at[0])];
      ByteParses(cs, [map[]] + around, at);
      Onwards(cs, f, around, map[], at, Parsed(Num(at[0]), at[1..], []));
      LengthLessFour(scope, vendor, ctx, length);
      BytesParse(cs, Plus(Ref(2, [Len]), Lit(-4)), [scope] + around, length - 4, at[1..]);
      LastField(cs, f.rest, around, scope, at[1..]);
      if 4 <= length <= |at| + 3 {
        assert at[1..][..length - 4] == at[1..length - 3];
        DropDrop(at, 1, length - 4);
      }
    }
  }

  lemma OuiIs(at: bytes)
    requires |at| >= 3
    ensures BigOf(at, 0, 3) == Num(0x1_0000 * (at[0] as int) + 0x100 * (at[1] as int) + at[2] as int)
  {
    var s := at[0..3];
    assert s[..2][..1] == [s[0]] && s[..2][..1][..0] == [];
    assert BigEndian(s[..2][..1]) == s[0];
    assert BigEndian(s[..2]) == 256 * (s[0] as int) + s[1] as int;
  }

  lemma VendorShape()
    ensures var f := VENDOR_ELEMENT.fields;
            && VENDOR_ELEMENT.Struct? && Unread(map[], f) && f.Field? && f.name == Oui && f.con == IntBig(3)
            && f.rest.Field? && f.rest.rest.End?
            && f.rest.name == VendorSpecificContent && f.rest.con.Switch? && f.rest.con.key == This(Oui)
            && f.rest.con.cases.Case? && f.rest.con.cases.con == MICROSOFT_CONTENT && f.rest.con.cases.key == 0x0050F2
            && f.rest.con.cases.rest == Otherwise(FixedBytes(Plus(LENGTH, Lit(-3))))
  {
    hide FieldNamesOf, Distinct;
    TwoNames(VENDOR_ELEMENT.fields);
    UnreadNames(VENDOR_ELEMENT.fields);
  }

  /** What follows the three bytes that name the organisation. */
  lemma VendorChoice(cs: Codecs, cases: Cases, scope: Scope, ctx: Context, length: nat, at: bytes, oui: int)
    requires HasLength(ctx, length) && Says(scope, Oui, oui)
    requires cases.Case? && cases.con == MICROSOFT_CONTENT && cases.key == 0x0050F2
    requires cases.rest == Otherwise(FixedBytes(Plus(LENGTH, Lit(-3))))
    ensures Parse(cs, Switch(This(Oui), cases), [scope] + ctx, at)
         == if oui == 0x0050F2 then
              if length < 4 || length - 3 > |at| then None
              else Some(Parsed(Rec(map[VendorType := Num(at[0]), OtherFields := Data(at[1..length - 3])]), at[length - 3..], []))
            else if 0 <= length - 3 <= |at| then Some(Parsed(Data(at[..length - 3]), at[length - 3..], [])) else None
  {
    hide Parse, HasLength, Eval;
    EvalThis(scope, ctx, Oui, oui);
    Switches(cs, This(Oui), cases, [scope] + ctx, at, oui);
    ParseCaseIs(cs, cases, oui, [scope] + ctx, at);
    MicrosoftParses(cs, scope, ctx, length, at);
    LengthLessThree(scope, ctx, length);
    BytesParse(cs, Plus(LENGTH, Lit(-3)), [scope] + ctx, length - 3, at);
  }

  /** The whole element from the bytes after the three. */
  lemma VendorSlices(at: bytes, length: nat)
    requires 3 <= length <= |at|
    ensures at[3..][..length - 3] == at[3..length] && at[3..][length - 3..] == at[length..]
    ensures length >= 4 ==> at[3..][1..length - 3] == at[4..length] && at[3..][0] == at[3]
  {
  }

  lemma VendorEnds(cs: Codecs, ctx: Context, length: nat, at: bytes)
    requires HasLength(ctx, length) && |at| >= 3
    ensures ParseFields(cs, VENDOR_ELEMENT.fields.rest, ctx, map[Oui := BigOf(at, 0, 3)], at[3..])
         == match VendorContent(length, at)
            case None => None
            case Some(p) => Some(ParsedFields(p.value.fields, p.rest, []))
  {
    hide Parse, ParseFields, HasLength, Unread, BigOf, VENDOR_ELEMENT, MICROSOFT_CONTENT;
    VendorShape();
    var f, scope: Scope := VENDOR_ELEMENT.fields, map[Oui := BigOf(at, 0, 3)];
    OuiIs(at);
    OuiOfBytes(at);
    VendorChoice(cs, f.rest.con.cases, scope, ctx, length, at[3..], scope[Oui].n);
    LastField(cs, f.rest, ctx, scope, at[3..]);
    if 3 <= length <= |at| {
      VendorSlices(at, length);
    }
  }

  lemma OuiOfBytes(at: bytes)
    requires |at| >= 3
    ensures 0x1_0000 * (at[0] as int) + 0x100 * (at[1] as int) + at[2] as int == 0x0050F2
        <==> at[0] == 0x00 && at[1] == 0x50 && at[2] == 0xF2
  {
  }

  lemma VendorParses(cs: Codecs, ctx: Context, length: nat, at: bytes)
    requires HasLength(ctx, length)
    ensures Parse(cs, VENDOR_ELEMENT, ctx, at) == VendorContent(length, at)
  {
    hide Parse, ParseFields, HasLength, Unread, BigOf, VENDOR_ELEMENT;
    VendorShape();
    var f := VENDOR_ELEMENT.fields;
    StructIs(cs, f, ctx, at);
    assert at[0..] == at;
    BigParses(cs, [map[]] + ctx, at, 0, 3);
    FixedAt(cs, f, 3, BigOf(at, 0, 3), ctx, map[], at, 0, 3);
    if |at| >= 3 {
      VendorEnds(cs, ctx, length, at);
    }
  }

  // ---- Every content ------------------------------------------------------------------------------------------

  lemma LowElementCases(id: int)
    requires id in {SSID_ID, 1, 2, 3, 4, 6, 7}
    ensures CaseOf(ELEMENT_CASES, id)
         == match id
            case 0 => SSID_ELEMENT
            case 1 => RATES_ELEMENT
            case 2 => FH_ELEMENT
            case 3 => DS_ELEMENT
            case 4 => CF_ELEMENT
            case 6 => IBSS_ELEMENT
            case _ => COUNTRY_ELEMENT
  {
    var c2 := ELEMENT_CASES.rest.rest;
    var c4 := c2.rest.rest;
    var c6 := c4.rest.rest;
    if id >= 2 {
      TwoSkipped(ELEMENT_CASES, id);
      if id >= 4 {
        TwoSkipped(c2, id);
        if id >= 7 {
          TwoSkipped(c4, id);
        }
      }
    }
  }

  lemma HighElementCases(id: int)
    requires id !in {SSID_ID, 1, 2, 3, 4, 6, 7}
    ensures CaseOf(ELEMENT_CASES, id)
         == match id
            case 10 => REQUEST_ELEMENT
            case 11 => BSS_LOAD_ELEMENT
            case 48 => Struct(RSN_FIELDS)
            case 65 => RSNI_ELEMENT
            case 50 => RATES_ELEMENT
            case 244 => RSN_EXTENSION_ELEMENT
            case 221 => VENDOR_ELEMENT
            case _ => FixedBytes(This(Len))
  {
    var c2 := ELEMENT_CASES.rest.rest;
    var c4 := c2.rest.rest;
    var c6 := c4.rest.rest;
    TwoSkipped(ELEMENT_CASES, id);
    TwoSkipped(c2, id);
    TwoSkipped(c4, id);
    LastElementCases(id, c6);
  }

  lemma LastElementCases(id: int, cases: Cases)
    requires cases == ELEMENT_CASES.rest.rest.rest.rest.rest.rest && id != 7
    ensures CaseOf(cases, id)
         == match id
            case 10 => REQUEST_ELEMENT
            case 11 => BSS_LOAD_ELEMENT
            case 48 => Struct(RSN_FIELDS)
            case 65 => RSNI_ELEMENT
            case 50 => RATES_ELEMENT
            case 244 => RSN_EXTENSION_ELEMENT
            case 221 => VENDOR_ELEMENT
            case _ => FixedBytes(This(Len))
  {
    var c2 := cases.rest.rest;
    var c4 := c2.rest.rest;
    var c6 := c4.rest.rest;
    if id != 10 {
      TwoSkipped(cases, id);
      if id != 11 && id != RSN_ID {
        TwoSkipped(c2, id);
        if id != 65 && id != 50 {
          TwoSkipped(c4, id);
          if id != 244 && id != VENDOR_ID {
            TwoSkipped(c6, id);
          }
        }
      }
    }
  }

  lemma HeadHasLength(id: int, length: nat, ctx: Context) returns (inner: Context)
    ensures inner == [ElementHead(id, length)] + ctx && HasLength(inner, length)
  {
    inner := [ElementHead(id, length)] + ctx;
    assert inner[0] == ElementHead(id, length);
    assert Len in inner[0] && inner[0][Len] == Num(length);
  }

  lemma LowContentIs(cs: Codecs, inner: Context, id: int, length: nat, at: bytes)
    requires HasLength(inner, length) && id in {SSID_ID, 1, 2, 3, 4, 6, 7} && length >= 1
    ensures Parse(cs, CaseOf(ELEMENT_CASES, id), inner, at) == ContentOfBytes(cs, id, length, at)
  {
    hide Parse, CaseOf, HasLength, SsidContent, RatesContent, HopContent, ContentionFreeContent, CountryContent, WindowContent,
         OneByteContent;
    LowElementCases(id);
    SsidParses(cs, inner, length, at);
    RatesParse(cs, inner, length, at);
    HopParses(cs, inner, at);
    OneByteParses(cs, DS_ELEMENT, CurrentChannel, inner, at);
    ContentionFreeParses(cs, inner, at);
    WindowParses(cs, inner, at);
    CountryParses(cs, inner, length, at);
  }

  lemma HighContentIs(cs: Codecs, ctx: Context, id: int, length: nat, at: bytes)
    requires id !in {SSID_ID, 1, 2, 3, 4, 6, 7} && id != RSN_ID && length >= 1
    ensures Parse(cs, CaseOf(ELEMENT_CASES, id), [ElementHead(id, length)] + ctx, at) == ContentOfBytes(cs, id, length, at)
  {
    hide Parse, CaseOf, HasLength, ElementHead, RatesContent, LoadContent, OneByteContent, VendorContent, OpaqueContent;
    var inner := HeadHasLength(id, length, ctx);
    HighElementCases(id);
    if id == REQUEST_ID {
      RequestNeverParses(cs, inner, at);
    } else if id == RSN_EXTENSION_ID {
      RsnExtensionNeverParses(cs, inner, at);
    } else if id == VENDOR_ID {
      VendorParses(cs, inner, length, at);
    } else if id == 11 {
      LoadParses(cs, inner, at);
    } else if id == 65 {
      OneByteParses(cs, RSNI_ELEMENT, Rsni, inner, at);
    } else if id == 50 {
      RatesParse(cs, inner, length, at);
    } else {
      OpaqueParses(cs, id, length, ctx, at);
    }
  }

  lemma ContentIs(cs: Codecs, ctx: Context, id: int, length: nat, at: bytes)
    requires id != 48 && id != 255
    ensures InfoOf(cs, ctx, id, length, at) == ContentOfBytes(cs, id, length, at)
  {
    hide Parse, CaseOf, ElementHead;
    if length == 0 {
    } else if id in {SSID_ID, 1, 2, 3, 4, 6, 7} {
      var inner := HeadHasLength(id, length, ctx);
      LowContentIs(cs, inner, id, length, at);
    } else {
      HighContentIs(cs, ctx, id, length, at);
    }
  }

  /** Element ids of the two kinds that have laws of their own: RSN elements and extensions. */
  predicate Special(id: int) {
    id == 48 || id == 255
  }

  /** An element, byte by byte: its id, its length, and the content that these two and the bytes behind them make. */
  lemma ElementOfBytes(cs: Codecs, ctx: Context, input: bytes)
    requires |input| >= 2 && !Special(input[0])
    ensures Parse(cs, INFORMATION_ELEMENT, ctx, input)
         == match ContentOfBytes(cs, input[0], input[1], input[2..])
            case None => None
            case Some(p) =>
              Some(Parsed(Rec(map[Id := Num(input[0]), Len := Num(input[1]), IdExtension := Nothing, Info := p.value]), p.rest, p.texts))
  {
    hide Parse, InfoOf, ContentOfBytes;
    ElementFollows(cs, ctx, input);
    ContentIs(cs, ctx, input[0], input[1], input[2..]);
  }
}
