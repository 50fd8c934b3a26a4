/** The class of an RSN element over the element's bytes, beside the class its documentation describes. */
module ElementsRsn {
  import opened Common
  import opened BitOrder
  import opened Construct
  import opened ConstructNames
  import opened FieldNames
  import opened WifiGrammar
  import opened WifiLaws
  import opened WifiBits
  import opened WifiRsnLayout
  import opened WifiRsn
  import opened Elements
  import opened ElementsLaws

  // ---- Suites ---------------------------------------------------------------------------------

  /** The `i`-th suite from `o` on. */
  predicate SuiteIs(at: bytes, o: nat, i: nat, suite: int) {
    o + 4 * i + 4 <= |at| && BigEndian(at[o + 4 * i..o + 4 * i + 4]) == suite
  }

  predicate Listed(at: bytes, o: nat, n: nat, suite: int) {
    exists i: nat :: i < n && SuiteIs(at, o, i, suite)
  }

  lemma ListedNext(at: bytes, o: nat, n: nat, suite: int)
    requires n > 0
    ensures Listed(at, o, n, suite) <==> SuiteIs(at, o, 0, suite) || Listed(at, o + 4, n - 1, suite)
  {
    if Listed(at, o + 4, n - 1, suite) {
      var i: nat :| i < n - 1 && SuiteIs(at, o + 4, i, suite);
      assert SuiteIs(at, o, i + 1, suite);
    }
    if Listed(at, o, n, suite) {
      var i: nat :| i < n && SuiteIs(at, o, i, suite);
      if i > 0 {
        assert SuiteIs(at, o + 4, i - 1, suite);
      }
    }
  }

  /** The parsed list holds exactly the suites among the bytes. */
  lemma {:induction false} ListedExactlyWhen(at: bytes, o: nat, n: nat, suite: int)
    ensures Num(suite) in Items(IntBig(4), at, o, n) <==> Listed(at, o, n, suite)
    decreases n
  {
    if n > 0 {
      ListedNext(at, o, n, suite);
      if o + 4 <= |at| {
        ListedExactlyWhen(at, o + 4, n - 1, suite);
        assert at[o + 4 * 0..o + 4 * 0 + 4] == at[o..o + 4];
      } else {
        assert !Listed(at, o + 4, n - 1, suite);
      }
    }
  }

  predicate OffersAkm(at: bytes, l: Layout, suite: int) {
    Listed(at, l.akmList, l.akms, suite)
  }

  /** The group cipher, a pairwise cipher or the group management cipher is `suite`. */
  predicate UsesCipher(at: bytes, l: Layout, suite: int) {
    || SuiteIs(at, 2, 0, suite)
    || Listed(at, l.pairwiseList, l.pairwise, suite)
    || (l.hasGroup && SuiteIs(at, l.groupAt, 0, suite))
  }

  lemma AkmsAre(info: Scope, at: bytes, l: Layout, suite: int)
    requires RsnFacts(info, at, l)
    ensures Lists(info, AkmSuites, suite) <==> OffersAkm(at, l, suite)
  {
    ListedExactlyWhen(at, l.akmList, l.akms, suite);
  }

  lemma CiphersAre(info: Scope, at: bytes, l: Layout, suite: int)
    requires RsnFacts(info, at, l)
    ensures Uses(info, suite) <==> UsesCipher(at, l, suite)
  {
    ListedExactlyWhen(at, l.pairwiseList, l.pairwise, suite);
    assert SuiteOf(true, at, 2) == Num(suite) <==> SuiteIs(at, 2, 0, suite);
    assert SuiteOf(l.hasGroup, at, l.groupAt) == Num(suite) <==> l.hasGroup && SuiteIs(at, l.groupAt, 0, suite);
  }

  // ---- The capability octets --------------------------------------------------------------------

  /** Bit `k` of the first capability octet, least significant first. */
  predicate CapabilityBit(at: bytes, l: Layout, k: nat) {
    l.hasCapabilities && l.capabilitiesAt + 2 <= |at| && TestBit(at[l.capabilitiesAt], k)
  }

  /** Management frame protection is read off the two lowest bits of the first capability octet: required is bit 1, capable bit 0. */
  lemma ProtectionIsLowBits(data: bytes)
    requires |data| == 2 && BitWidth(RSN_CAPABILITY_BITS) == 16 && ParseBits(RSN_CAPABILITY_BITS, Stream(data, false), map[]).Some?
    ensures var r := ParseBits(RSN_CAPABILITY_BITS, Stream(data, false), map[]).value;
            && Says(r, ManagementFrameProtectionRequired, data[0] / 2 % 2)
            && Says(r, ManagementFrameProtectionCapable, data[0] % 2)
  {
    RsnCapabilitiesOfBytes(data);
  }

  lemma ProtectionBits(info: Scope, at: bytes, l: Layout)
    requires RsnFacts(info, at, l) && (l.hasCapabilities ==> l.capabilitiesAt + 2 <= |at|)
    ensures ProtectionRequired(info) <==> CapabilityBit(at, l, 1)
    ensures ProtectionCapable(info) <==> CapabilityBit(at, l, 0)
  {
    hide ParseBits, Distinct, Names, BitWidth, TestBit, Stream, SuiteOf, Items;
    if l.hasCapabilities {
      var o := l.capabilitiesAt;
      var data := at[o..o + 2];
      CapabilityWidth();
      RsnCapabilityNames();
      DistinctBitsParse(RSN_CAPABILITY_BITS, Octets(at, o), map[]);
      ProtectionIsLowBits(data);
      LowTestBits(data[0]);
    }
  }

  lemma LowTestBits(n: nat)
    ensures TestBit(n, 0) <==> n % 2 != 0
    ensures TestBit(n, 1) <==> n / 2 % 2 != 0
  {
    assert TestBit(n, 1) == TestBit(n / 2, 0);
  }

  // ---- The class over the bytes -----------------------------------------------------------------------

  /** SAE is offered, PSK and PSK with SHA-256 are not, and no cipher is WEP or TKIP. */
  predicate Wpa3Suites(at: bytes, l: Layout) {
    && OffersAkm(at, l, 0x000FAC_08) && !OffersAkm(at, l, 0x000FAC_02) && !OffersAkm(at, l, 0x000FAC_06)
    && !UsesCipher(at, l, 0x000FAC_01) && !UsesCipher(at, l, 0x000FAC_02) && !UsesCipher(at, l, 0x000FAC_05)
  }

  function ClassBy(capable: bool, required: bool, wpa3: bool, transitional: bool): WiFiSecurity {
    if capable && required && wpa3 then WPA3
    else if capable && !required && transitional then WPA3_TRAN
    else WPA2
  }

  /** The class computed: protection off the two lowest bits, transition mode for PSK or SAE. */
  function ClassOfBytes(at: bytes, l: Layout): WiFiSecurity {
    ClassBy(CapabilityBit(at, l, 0), CapabilityBit(at, l, 1), Wpa3Suites(at, l),
            OffersAkm(at, l, 0x000FAC_02) || OffersAkm(at, l, 0x000FAC_08))
  }

  /**
   The class its comment describes: protection off bits 7 (capable) and 6 (required) of the octet, where
   IEEE 802.11-2020, section 9.4.2.24.4, has them, and transition mode for PSK and SAE together.
   */
  function DocumentedClass(at: bytes, l: Layout): WiFiSecurity {
    ClassBy(CapabilityBit(at, l, 7), CapabilityBit(at, l, 6), Wpa3Suites(at, l),
            OffersAkm(at, l, 0x000FAC_02) && OffersAkm(at, l, 0x000FAC_08))
  }

  /** Protection supported but not required; `capable` and `required` are bits of the octet. */
  predicate OptionalBy(at: bytes, l: Layout, capable: nat, required: nat) {
    CapabilityBit(at, l, capable) && !CapabilityBit(at, l, required)
  }

  predicate RequiredBy(at: bytes, l: Layout, capable: nat, required: nat) {
    CapabilityBit(at, l, capable) && CapabilityBit(at, l, required)
  }

  /**
   Both readings of the capability octet come to the same. With PSK and SAE: protection is optional
   by both or by neither. With one of the two: by its low bits it is not optional, and a WPA3 set
   of suites is under required protection by both or by neither. With none of them always.
   */
  predicate ReadingsAgree(at: bytes, l: Layout) {
    if OffersAkm(at, l, 0x000FAC_02) && OffersAkm(at, l, 0x000FAC_08) then OptionalBy(at, l, 0, 1) == OptionalBy(at, l, 7, 6)
    else if OffersAkm(at, l, 0x000FAC_02) || OffersAkm(at, l, 0x000FAC_08) then
      !OptionalBy(at, l, 0, 1) && (Wpa3Suites(at, l) ==> RequiredBy(at, l, 0, 1) == RequiredBy(at, l, 7, 6))
    else true
  }

  lemma ReadingsAgreeExactlyWhen(at: bytes, l: Layout)
    ensures ClassOfBytes(at, l) == DocumentedClass(at, l) <==> ReadingsAgree(at, l)
  {
  }

  predicate Wpa3Lists(info: Scope) {
    && Lists(info, AkmSuites, 0x000FAC_08) && !Lists(info, AkmSuites, 0x000FAC_02) && !Lists(info, AkmSuites, 0x000FAC_06)
    && !Uses(info, 0x000FAC_01) && !Uses(info, 0x000FAC_02) && !Uses(info, 0x000FAC_05)
  }

  lemma Wpa3ListsAre(info: Scope, at: bytes, l: Layout)
    requires RsnFacts(info, at, l)
    ensures Wpa3Lists(info) <==> Wpa3Suites(at, l)
  {
    hide RsnFacts, Lists, Uses, OffersAkm, UsesCipher;
    AkmsAre(info, at, l, 0x000FAC_08);
    AkmsAre(info, at, l, 0x000FAC_02);
    AkmsAre(info, at, l, 0x000FAC_06);
    CiphersAre(info, at, l, 0x000FAC_01);
    CiphersAre(info, at, l, 0x000FAC_02);
    CiphersAre(info, at, l, 0x000FAC_05);
  }

  lemma RecordClass(info: Scope)
    requires RsnClass(Rec(info)).Some?
    ensures RsnClass(Rec(info)).value
         == ClassBy(ProtectionCapable(info), ProtectionRequired(info), Wpa3Lists(info),
                    Lists(info, AkmSuites, 0x000FAC_02) || Lists(info, AkmSuites, 0x000FAC_08))
  {
    Wpa3ExactlyWhen(info);
  }

  lemma FactsClassify(info: Scope, at: bytes, l: Layout)
    requires RsnFacts(info, at, l)
    ensures RsnClass(Rec(info)).Some?
  {
  }

  lemma InfoClass(info: Scope, at: bytes, l: Layout)
    requires RsnFacts(info, at, l) && (l.hasCapabilities ==> l.capabilitiesAt + 2 <= |at|)
    ensures RsnClass(Rec(info)) == Some(ClassOfBytes(at, l))
  {
    hide RsnFacts, Lists, OffersAkm, Wpa3Lists, Wpa3Suites, RsnClass, ProtectionCapable, ProtectionRequired, CapabilityBit, ClassBy;
    FactsClassify(info, at, l);
    RecordClass(info);
    ProtectionBits(info, at, l);
    Wpa3ListsAre(info, at, l);
    AkmsAre(info, at, l, 0x000FAC_02);
    AkmsAre(info, at, l, 0x000FAC_08);
  }

  /** The class of a parsed RSN element is a function of its bytes, and the documented class exactly when both readings agree. */
  lemma RsnClassIsDocumentedExactlyWhen(cs: Codecs, ctx: Context, input: bytes)
    requires |input| >= 2 && input[0] == 48 && input[1] >= 1 && Parse(cs, INFORMATION_ELEMENT, ctx, input).Some?
    ensures var at, l := input[2..], LayoutOf(input[2..], input[1]);
            var found := RsnClass(ContentOf(Parse(cs, INFORMATION_ELEMENT, ctx, input).value.value));
            && found == Some(ClassOfBytes(at, l))
            && (found == Some(DocumentedClass(at, l)) <==> ReadingsAgree(at, l))
  {
    var at, l := input[2..], LayoutOf(input[2..], input[1]);
    var info := RsnElementParsesExactlyWhen(cs, ctx, input);
    LayoutStages(at, input[1]);
    InfoOfHead(RSN_ID, input[1], Rec(info));
    InfoClass(info, at, l);
    ReadingsAgreeExactlyWhen(at, l);
  }
}
