/** Inputs on which the code and its documented intent part, for information elements. */
module ElementsCases {
  import opened Common
  import opened Construct
  import opened FieldNames
  import opened WifiGrammar
  import opened WifiLaws
  import opened WifiElements
  import opened WifiContents
  import opened WifiSizes
  import opened WifiStuck
  import opened WifiRsnLayout
  import opened WifiRsn
  import opened Elements
  import opened ElementsLaws
  import opened ElementsRsn
  import opened ElementsFrames

  // ---- Numbers at an offset ----------------------------------------------------------------

  lemma WordAt(at: bytes, o: nat, lo: int, hi: int)
    requires o + 2 <= |at| && at[o] == lo && at[o + 1] == hi
    ensures Word16(at, o) == lo + 256 * hi
  {
    var s := at[o..o + 2];
    assert s[1..] == [at[o + 1]] && s[1..][1..] == [];
    assert LittleEndian(s[1..]) == hi;
  }

  lemma BigAppend(s: bytes, b: byte)
    ensures BigEndian(s + [b]) == 256 * BigEndian(s) + b
  {
    assert (s + [b])[..|s|] == s;
  }

  lemma BigFour(s: bytes, a: int, b: int, c: int, d: int)
    requires |s| == 4 && s[0] == a && s[1] == b && s[2] == c && s[3] == d
    ensures BigEndian(s) == 256 * (256 * (256 * a + b) + c) + d
  {
    var s1, s2, s3 := [] + [s[0]], [s[0]] + [s[1]], [s[0], s[1]] + [s[2]];
    BigAppend([], s[0]);
    BigAppend([s[0]], s[1]);
    BigAppend([s[0], s[1]], s[2]);
    BigAppend([s[0], s[1], s[2]], s[3]);
    assert s1 == [s[0]] && s2 == [s[0], s[1]] && s3 == [s[0], s[1], s[2]];
    assert s == s3 + [s[3]];
  }

  /** The suite `d` of the standard's OUI. */
  predicate StandardSuite(at: bytes, o: nat, d: int) {
    o + 4 <= |at| && at[o] == 0x00 && at[o + 1] == 0x0F && at[o + 2] == 0xAC && at[o + 3] == d
  }

  lemma SuiteAt(at: bytes, o: nat, d: int, suite: int)
    requires StandardSuite(at, o, d)
    ensures SuiteIs(at, o, 0, suite) <==> suite == 0x000FAC_00 + d
  {
    var s := at[o..o + 4];
    assert at[o + 4 * 0..o + 4 * 0 + 4] == s;
    BigFour(s, 0x00, 0x0F, 0xAC, d);
  }

  /** One suite on a list. */
  lemma OneListed(at: bytes, o: nat, d: int, suite: int)
    requires StandardSuite(at, o, d)
    ensures Listed(at, o, 1, suite) <==> suite == 0x000FAC_00 + d
  {
    ListedNext(at, o, 1, suite);
    SuiteAt(at, o, d, suite);
  }

  lemma TwoListed(at: bytes, o: nat, d: int, e: int, suite: int)
    requires StandardSuite(at, o, d) && StandardSuite(at, o + 4, e)
    ensures Listed(at, o, 2, suite) <==> suite == 0x000FAC_00 + d || suite == 0x000FAC_00 + e
  {
    ListedNext(at, o, 2, suite);
    SuiteAt(at, o, d, suite);
    OneListed(at, o + 4, e, suite);
  }

  // ---- Which bits are management frame protection ---------------------------------------------

  /** The content of an RSN element with CCMP and SAE, and this first capability octet. */
  function SaeContent(c: byte): bytes {
    [1, 0, 0x00, 0x0F, 0xAC, 4, 1, 0, 0x00, 0x0F, 0xAC, 4, 1, 0, 0x00, 0x0F, 0xAC, 8, c, 0]
  }

  function SaeElement(c: byte): bytes {
    [RSN_ID, 20] + SaeContent(c)
  }

  lemma SaeLayout(c: byte) returns (l: Layout)
    ensures l == LayoutOf(SaeContent(c), 20)
    ensures l.pairwise == 1 && l.pairwiseList == 8 && l.akms == 1 && l.akmList == 14
    ensures l.hasCapabilities && l.capabilitiesAt == 18 && !l.hasGroup && l.end == 20
  {
    var at := SaeContent(c);
    WordAt(at, 6, 1, 0);
    WordAt(at, 12, 1, 0);
    l := LayoutOf(at, 20);
  }

  /** CCMP for all, and this AKM suite alone. */
  lemma OneAkmSuites(at: bytes, l: Layout, akm: int, suite: int)
    requires l.pairwise == 1 && l.akms == 1 && !l.hasGroup
    requires StandardSuite(at, 2, 4) && StandardSuite(at, l.pairwiseList, 4) && StandardSuite(at, l.akmList, akm)
    ensures OffersAkm(at, l, suite) <==> suite == 0x000FAC_00 + akm
    ensures UsesCipher(at, l, suite) <==> suite == 0x000FAC_04
  {
    SuiteAt(at, 2, 4, suite);
    OneListed(at, l.pairwiseList, 4, suite);
    OneListed(at, l.akmList, akm, suite);
  }

  lemma SaeSuites(c: byte, l: Layout)
    requires l == LayoutOf(SaeContent(c), 20)
    ensures Wpa3Suites(SaeContent(c), l) && !OffersAkm(SaeContent(c), l, PSK) && OffersAkm(SaeContent(c), l, SAE)
  {
    var at := SaeContent(c);
    var l' := SaeLayout(c);
    OneAkmSuites(at, l, 8, SAE);
    OneAkmSuites(at, l, 8, PSK);
    OneAkmSuites(at, l, 8, PSK_SHA256);
    OneAkmSuites(at, l, 8, 0x000FAC_01);
    OneAkmSuites(at, l, 8, 0x000FAC_02);
    OneAkmSuites(at, l, 8, 0x000FAC_05);
  }

  lemma BitsAt(at: bytes, l: Layout, c: byte, k: nat)
    requires l.hasCapabilities && l.capabilitiesAt + 2 <= |at| && at[l.capabilitiesAt] == c
    ensures CapabilityBit(at, l, k) <==> TestBit(c, k)
  {
  }

  /** The class of the SAE element for every capability octet, as computed and as documented. */
  lemma SaeElementClass(cs: Codecs, ctx: Context, c: byte) returns (e: Value)
    ensures Parse(cs, INFORMATION_ELEMENT, ctx, SaeElement(c)) == Some(Parsed(e, [], []))
    ensures IdOf(e) == Some(RSN_ID)
    ensures RsnClass(ContentOf(e)) == Some(ClassBy(TestBit(c, 0), TestBit(c, 1), true, true))
    ensures DocumentedClass(SaeContent(c), LayoutOf(SaeContent(c), 20)) == ClassBy(TestBit(c, 7), TestBit(c, 6), true, false)
  {
    hide Parse, RsnFacts, RsnClass, LayoutOf, OffersAkm, Wpa3Suites, ElementHead, CapabilityBit, TestBit, ClassBy;
    var input, at := SaeElement(c), SaeContent(c);
    assert input[2..] == at;
    var l := SaeLayout(c);
    var info := RsnElementParsesExactlyWhen(cs, ctx, input);
    RsnClassIsDocumentedExactlyWhen(cs, ctx, input);
    SaeSuites(c, l);
    BitsAt(at, l, c, 0);
    BitsAt(at, l, c, 1);
    BitsAt(at, l, c, 7);
    BitsAt(at, l, c, 6);
    e := Parse(cs, INFORMATION_ELEMENT, ctx, input).value.value;
    RsnHead(e, 20, info);
  }

  lemma RsnHead(e: Value, length: int, info: Scope)
    requires HasInfo(e, RSN_ID, length, info)
    ensures IdOf(e) == Some(RSN_ID)
  {
    var fields := ElementHead(RSN_ID, length)[Info := Rec(info)];
    assert Id in fields && fields[Id] == Num(RSN_ID);
  }

  // With PSK and SAE, and with this first capability octet.

  function MixedContent(c: byte): bytes {
    [1, 0, 0x00, 0x0F, 0xAC, 4, 1, 0, 0x00, 0x0F, 0xAC, 4, 2, 0, 0x00, 0x0F, 0xAC, 2, 0x00, 0x0F, 0xAC, 8, c, 0]
  }

  function MixedElement(c: byte): bytes {
    [RSN_ID, 24] + MixedContent(c)
  }

  lemma MixedLayout(c: byte) returns (l: Layout)
    ensures l == LayoutOf(MixedContent(c), 24)
    ensures l.pairwise == 1 && l.pairwiseList == 8 && l.akms == 2 && l.akmList == 14
    ensures l.hasCapabilities && l.capabilitiesAt == 22 && !l.hasGroup && l.end == 24
  {
    var at := MixedContent(c);
    WordAt(at, 6, 1, 0);
    WordAt(at, 12, 2, 0);
    l := LayoutOf(at, 24);
  }

  lemma MixedSuites(c: byte, l: Layout)
    requires l == LayoutOf(MixedContent(c), 24)
    ensures OffersAkm(MixedContent(c), l, PSK) && OffersAkm(MixedContent(c), l, SAE) && !Wpa3Suites(MixedContent(c), l)
  {
    var at := MixedContent(c);
    var l' := MixedLayout(c);
    TwoListed(at, 14, 2, 8, PSK);
    TwoListed(at, 14, 2, 8, SAE);
  }

  lemma MixedElementClass(cs: Codecs, ctx: Context, c: byte) returns (e: Value)
    ensures Parse(cs, INFORMATION_ELEMENT, ctx, MixedElement(c)) == Some(Parsed(e, [], []))
    ensures RsnClass(ContentOf(e)) == Some(ClassBy(TestBit(c, 0), TestBit(c, 1), false, true))
    ensures DocumentedClass(MixedContent(c), LayoutOf(MixedContent(c), 24)) == ClassBy(TestBit(c, 7), TestBit(c, 6), false, true)
  {
    hide Parse, RsnFacts, RsnClass, LayoutOf, OffersAkm, Wpa3Suites, ElementHead, CapabilityBit, TestBit, ClassBy;
    var input, at := MixedElement(c), MixedContent(c);
    assert input[2..] == at;
    var l := MixedLayout(c);
    var info := RsnElementParsesExactlyWhen(cs, ctx, input);
    RsnClassIsDocumentedExactlyWhen(cs, ctx, input);
    MixedSuites(c, l);
    BitsAt(at, l, c, 0);
    BitsAt(at, l, c, 1);
    BitsAt(at, l, c, 7);
    BitsAt(at, l, c, 6);
    e := Parse(cs, INFORMATION_ELEMENT, ctx, input).value.value;
  }

  lemma OctetBits()
    ensures !TestBit(0x80, 0) && !TestBit(0x80, 1) && !TestBit(0x80, 6) && TestBit(0x80, 7)
    ensures !TestBit(0xC0, 0) && !TestBit(0xC0, 1) && TestBit(0xC0, 6) && TestBit(0xC0, 7)
    ensures TestBit(0x03, 0) && TestBit(0x03, 1) && !TestBit(0x03, 6) && !TestBit(0x03, 7)
  {
  }

  /**
   Three elements classed by the wrong bits: protection supported, not required, with PSK and SAE
   is called WPA2; protection supported and required with SAE is called WPA2; and an element with
   SAE that does not support protection at all is called WPA3.
   */
  lemma ProtectionBitsAreMisread(cs: Codecs, ctx: Context) returns (mixed: Value, sae: Value, plain: Value)
    ensures Parse(cs, INFORMATION_ELEMENT, ctx, MixedElement(0x80)) == Some(Parsed(mixed, [], []))
    ensures Parse(cs, INFORMATION_ELEMENT, ctx, SaeElement(0xC0)) == Some(Parsed(sae, [], []))
    ensures Parse(cs, INFORMATION_ELEMENT, ctx, SaeElement(0x03)) == Some(Parsed(plain, [], []))
    ensures RsnClass(ContentOf(mixed)) == Some(WPA2)
    ensures DocumentedClass(MixedContent(0x80), LayoutOf(MixedContent(0x80), 24)) == WPA3_TRAN
    ensures RsnClass(ContentOf(sae)) == Some(WPA2)
    ensures DocumentedClass(SaeContent(0xC0), LayoutOf(SaeContent(0xC0), 20)) == WPA3
    ensures RsnClass(ContentOf(plain)) == Some(WPA3)
    ensures DocumentedClass(SaeContent(0x03), LayoutOf(SaeContent(0x03), 20)) == WPA2
  {
    hide Parse, RsnClass, LayoutOf, DocumentedClass, TestBit;
    OctetBits();
    mixed := MixedElementClass(cs, ctx, 0x80);
    sae := SaeElementClass(cs, ctx, 0xC0);
    plain := SaeElementClass(cs, ctx, 0x03);
  }

  // ---- Reading past the length -------------------------------------------------------------------

  /** An RSN element of length 2 takes the SSID element behind it for its group cipher suite. */
  lemma ShortRsnElementTakesTheNext(cs: Codecs, ctx: Context)
    ensures var input: bytes := [RSN_ID, 2, 1, 0, SSID_ID, 2, 0x61, 0x62];
            var p := Parse(cs, INFORMATION_ELEMENT, ctx, input);
            && p.Some? && p.value.rest == []
            && p.value.value.Rec? && Info in p.value.value.fields && p.value.value.fields[Info].Rec?
            && Says(p.value.value.fields[Info].fields, GroupCipherSuite, 0x00026162)
  {
    var input: bytes := [RSN_ID, 2, 1, 0, SSID_ID, 2, 0x61, 0x62];
    var at := input[2..];
    assert at == [1, 0, SSID_ID, 2, 0x61, 0x62];
    assert LayoutOf(at, 2).end == 6;
    var info := RsnElementParsesExactlyWhen(cs, ctx, input);
    assert input[8..] == [];
    InfoOfHead(RSN_ID, 2, Rec(info));
    SuiteBytesAt(at);
  }

  lemma SuiteBytesAt(at: bytes)
    requires at == [1, 0, SSID_ID, 2, 0x61, 0x62]
    ensures SuiteOf(true, at, 2) == Num(0x00026162)
  {
    var s := at[2..6];
    BigFour(s, 0x00, 0x02, 0x61, 0x62);
  }

  // ---- Lists of elements ----------------------------------------------------------------------------

  lemma NoElements(cs: Codecs, ctx: Context, input: bytes)
    requires Parse(cs, INFORMATION_ELEMENT, ctx, input).None?
    ensures Parse(cs, ELEMENTS, ctx, input) == Some(Parsed(Listing([]), input, []))
  {
  }

  /** One element before a list. */
  lemma ElementThen(cs: Codecs, ctx: Context, input: bytes, e: Value, rest: bytes, items: seq<Value>, left: bytes)
    requires Parse(cs, INFORMATION_ELEMENT, ctx, input) == Some(Parsed(e, rest, [])) && |rest| < |input|
    requires Parse(cs, ELEMENTS, ctx, rest) == Some(Parsed(Listing(items), left, []))
    ensures Parse(cs, ELEMENTS, ctx, input) == Some(Parsed(Listing([e] + items), left, []))
  {
    var p, q := Parse(cs, INFORMATION_ELEMENT, ctx, input).value, ParseGreedy(cs, INFORMATION_ELEMENT, ctx, rest).value;
    assert p.texts + q.texts == [];
  }

  lemma OneElement(cs: Codecs, ctx: Context, input: bytes, e: Value)
    requires Parse(cs, INFORMATION_ELEMENT, ctx, input) == Some(Parsed(e, [], [])) && input != []
    ensures Parse(cs, ELEMENTS, ctx, input) == Some(Parsed(Listing([e]), [], []))
  {
    ShortElement(cs, ctx, []);
    NoElements(cs, ctx, []);
    ElementThen(cs, ctx, input, e, [], [], []);
    assert [e] + [] == [e];
  }

  lemma ClassOfOneRsn(e: Value, c: WiFiSecurity)
    requires IdOf(e) == Some(RSN_ID) && RsnClass(ContentOf(e)) == Some(c)
    ensures Classify([e], Some(true)) == Some([c])
  {
    assert [e][1..] == [];
    assert WithId([e], RSN_ID) == [e] && WithId([e], VENDOR_ID) == [];
    var none: seq<WiFiSecurity> := [];
    assert none + [c] == [c];
  }

  /** A request element in front of an RSN element: the list is empty, and a WPA3 network with the privacy bit is called WEP. */
  lemma RequestElementHidesRsn(cs: Codecs, ctx: Context) returns (e: Value)
    ensures Parse(cs, ELEMENTS, ctx, SaeElement(0x03)) == Some(Parsed(Listing([e]), [], []))
    ensures Classify([e], Some(true)) == Some([WPA3])
    ensures var input: bytes := [REQUEST_ID, 1, 5] + SaeElement(0x03);
            Parse(cs, ELEMENTS, ctx, input) == Some(Parsed(Listing([]), input, []))
    ensures Classify([], Some(true)) == Some([WEP])
  {
    hide Parse, RsnClass, DocumentedClass, LayoutOf, TestBit, IdOf;
    OctetBits();
    e := SaeElementClass(cs, ctx, 0x03);
    OneElement(cs, ctx, SaeElement(0x03), e);
    ClassOfOneRsn(e, WPA3);
    var input: bytes := [REQUEST_ID, 1, 5] + SaeElement(0x03);
    StuckElementParsesExactlyWhen(cs, ctx, input);
    NoElements(cs, ctx, input);
  }

  // ---- Vendor elements -----------------------------------------------------------------------------------

  const EMPTY_VENDOR: bytes := [VENDOR_ID, 0]

  const WPA_VENDOR: bytes := [VENDOR_ID, 4, 0x00, 0x50, 0xF2, WPA_TYPE]

  function EmptyVendor(): Value {
    Rec(ElementHead(VENDOR_ID, 0)[Info := Nothing])
  }

  function WpaContent(): Scope {
    map[Oui := Num(MICROSOFT_OUI),
        VendorSpecificContent := Rec(map[VendorType := Num(WPA_TYPE), OtherFields := Data([])])]
  }

  function WpaVendor(): Value {
    Rec(ElementHead(VENDOR_ID, 4)[Info := Rec(WpaContent())])
  }

  lemma EmptyVendorParses(cs: Codecs, ctx: Context, rest: bytes)
    ensures Parse(cs, INFORMATION_ELEMENT, ctx, EMPTY_VENDOR + rest) == Some(Parsed(EmptyVendor(), rest, []))
    ensures IdOf(EmptyVendor()) == Some(VENDOR_ID) && AnnouncesWpa(EmptyVendor()) == None
  {
    var input := EMPTY_VENDOR + rest;
    ElementFollows(cs, ctx, input);
    assert input[2..] == rest;
    HeadedElement(VENDOR_ID, 0, Nothing);
  }

  lemma WpaVendorParses(cs: Codecs, ctx: Context, rest: bytes)
    ensures Parse(cs, INFORMATION_ELEMENT, ctx, WPA_VENDOR + rest) == Some(Parsed(WpaVendor(), rest, []))
    ensures IdOf(WpaVendor()) == Some(VENDOR_ID) && AnnouncesWpa(WpaVendor()) == Some(true)
  {
    hide Parse;
    var input := WPA_VENDOR + rest;
    ElementOfBytes(cs, ctx, input);
    assert input[2..][4..] == rest && input[2..][4..4] == [];
    HeadedElement(VENDOR_ID, 4, Rec(WpaContent()));
    WpaAnnouncedExactlyWhen(cs, ctx, input);
  }

  lemma TwoVendors(a: Value, b: Value)
    requires IdOf(a) == Some(VENDOR_ID) && IdOf(b) == Some(VENDOR_ID)
    ensures WithId([a, b], VENDOR_ID) == [a, b] && WithId([a, b], RSN_ID) == []
  {
    assert [a, b][1..] == [b] && [b][1..] == [];
    assert WithId([b], VENDOR_ID) == [b] && WithId([b], RSN_ID) == [];
  }

  lemma VendorPair(e: Value, w: Value, privacy: Option<bool>)
    requires AnnouncesWpa(e) == None && AnnouncesWpa(w) == Some(true)
    requires WithId([e, w], VENDOR_ID) == [e, w] && WithId([e, w], RSN_ID) == []
    requires WithId([w, e], VENDOR_ID) == [w, e] && WithId([w, e], RSN_ID) == []
    ensures OrderSensitive([e, w]) && Classify([e, w], privacy) == None && Classify([w, e], privacy) == Some([WPA])
  {
    assert e in [e, w] && w in [e, w];
  }

  lemma TwoElements(cs: Codecs, ctx: Context, input: bytes, a: Value, rest: bytes, b: Value)
    requires Parse(cs, INFORMATION_ELEMENT, ctx, input) == Some(Parsed(a, rest, [])) && |rest| < |input|
    requires Parse(cs, INFORMATION_ELEMENT, ctx, rest) == Some(Parsed(b, [], [])) && rest != []
    ensures Parse(cs, ELEMENTS, ctx, input) == Some(Parsed(Listing([a, b]), [], []))
  {
    OneElement(cs, ctx, rest, b);
    ElementThen(cs, ctx, input, a, rest, [b], []);
    assert [a] + [b] == [a, b];
  }

  /** Two vendor elements: with the empty one first the classification raises, the other way round it is WPA. */
  lemma EmptyVendorFirstRaises(cs: Codecs, ctx: Context, privacy: Option<bool>) returns (e: Value, w: Value)
    ensures Parse(cs, ELEMENTS, ctx, EMPTY_VENDOR + WPA_VENDOR) == Some(Parsed(Listing([e, w]), [], []))
    ensures Parse(cs, ELEMENTS, ctx, WPA_VENDOR + EMPTY_VENDOR) == Some(Parsed(Listing([w, e]), [], []))
    ensures OrderSensitive([e, w]) && Classify([e, w], privacy) == None && Classify([w, e], privacy) == Some([WPA])
  {
    hide Parse, IdOf, AnnouncesWpa, ElementHead, EmptyVendor, WpaVendor;
    e, w := EmptyVendor(), WpaVendor();
    EmptyVendorParses(cs, ctx, WPA_VENDOR);
    EmptyVendorParses(cs, ctx, []);
    WpaVendorParses(cs, ctx, []);
    WpaVendorParses(cs, ctx, EMPTY_VENDOR);
    assert EMPTY_VENDOR + [] == EMPTY_VENDOR && WPA_VENDOR + [] == WPA_VENDOR;
    TwoElements(cs, ctx, EMPTY_VENDOR + WPA_VENDOR, e, WPA_VENDOR, w);
    TwoElements(cs, ctx, WPA_VENDOR + EMPTY_VENDOR, w, EMPTY_VENDOR, e);
    TwoVendors(e, w);
    TwoVendors(w, e);
    VendorPair(e, w, privacy);
  }

  // ---- Lengths that do not fit ----------------------------------------------------------------------------

  lemma EmptySsidParses(cs: Codecs, ctx: Context) returns (e: Value)
    ensures Parse(cs, INFORMATION_ELEMENT, ctx, [SSID_ID, 0]) == Some(Parsed(e, [], []))
  {
    var input: bytes := [SSID_ID, 0];
    ElementFollows(cs, ctx, input);
    assert input[2..] == [];
    e := Rec(ElementHead(SSID_ID, 0)[Info := Nothing]);
  }

  lemma LongDsParses(cs: Codecs, ctx: Context, input: bytes) returns (e: Value)
    requires input == [3, 2, 6, 0, 0]
    ensures Parse(cs, INFORMATION_ELEMENT, ctx, input) == Some(Parsed(e, [SSID_ID, 0], []))
  {
    hide Parse;
    ElementOfBytes(cs, ctx, input);
    assert input[2..][1..] == [SSID_ID, 0];
    e := Rec(ElementHead(3, 2)[Info := Rec(map[CurrentChannel := Num(6)])]);
  }

  /** A DS parameter set of length 2: its second byte is read as the id of another element, which the lengths know nothing of. */
  lemma LongDsElementShiftsTheList(cs: Codecs, ctx: Context) returns (ds: Value, ssid: Value)
    ensures var input: bytes := [3, 2, 6, 0, 0];
            && Parse(cs, ELEMENTS, ctx, input) == Some(Parsed(Listing([ds, ssid]), [], []))
            && Segments(input) == [0, 4]
  {
    hide Parse;
    var input: bytes := [3, 2, 6, 0, 0];
    ds := LongDsParses(cs, ctx, input);
    ssid := EmptySsidParses(cs, ctx);
    TwoElements(cs, ctx, input, ds, [SSID_ID, 0], ssid);
    assert SegmentsFrom(input, 4) == [4];
  }
}
