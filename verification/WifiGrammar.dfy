/** The 802.11 frame grammar. */
module WifiGrammar {
  import opened Construct
  import opened FieldNames

  // ---- Shorthands ------------------------------------------------------------------------

  const BYTE: Con := IntLittle(1)

  /** `this.name`. */
  function This(name: Name): Expr {
    Ref(0, [name])
  }

  function If(cond: Expr, con: Con): Con {
    IfThenElse(cond, con, Pass)
  }

  // ---- Information elements -------------------------------------------------------------------

  const SSID_ID := 0
  const RSN_ID := 48
  const INTERWORKING_ID := 107
  const EXTENDED_CAPABILITIES_ID := 127
  const VENDOR_ID := 221
  const EXTENSION_ID := 255

  const MICROSOFT_OUI := 0x0050F2

  /** `this._.len`, seen from the struct of an element. */
  const LENGTH: Expr := Ref(1, [Len])

  const SSID_ELEMENT: Con := Struct(Field(Ssid, FallbackString(LENGTH), End))

  const RATES_ELEMENT: Con := Struct(Field(Rates, Array(LENGTH, RateByte), End))

  const FH_ELEMENT: Con := Struct(
    Field(DwellTime, IntBig(2), Field(HopSet, BYTE, Field(HopPattern, BYTE, Field(HopIndex, BYTE, End)))))

  const DS_ELEMENT: Con := Struct(Field(CurrentChannel, BYTE, End))

  const CF_ELEMENT: Con := Struct(
    Field(CfpCount, BYTE, Field(CfpPeriod, BYTE, Field(CfpMaxDuration, IntBig(2), Field(CfpDurRemaining, IntBig(2), End)))))

  const IBSS_ELEMENT: Con := Struct(Field(AtimWindow, IntBig(2), End))

  const COUNTRY_TRIPLET: Con := Struct(
    Field(FirstChannelNumber, BYTE, Field(NumberOfChannels, BYTE, Field(MaxTransmitPowerLevel, BYTE, End))))

  const COUNTRY_ELEMENT: Con := Struct(
    Field(CountryString, FixedBytes(Lit(3)),
    Field(CountryInfo, Array(Third(Plus(LENGTH, Lit(-3))), COUNTRY_TRIPLET), End)))

  /** Asks its own struct, not the element around it, for the length. */
  const REQUEST_ELEMENT: Con := Struct(Field(RequestedInfoElems, Array(This(Len), BYTE), End))

  const BSS_LOAD_ELEMENT: Con := Struct(
    Field(StationCount, IntBig(2), Field(ChannelUtilization, BYTE, Field(AvailableAdmissionCapacity, IntBig(2), End))))

  const RSNI_ELEMENT: Con := Struct(Field(Rsni, BYTE, End))

  /** The tail asks the struct around the bits, not the element, for the length. */
  const RSN_EXTENSION_ELEMENT: Con := Struct(
    Field(RsnExtendedCapabilities, Struct(
      Field(ExtensionBits, BYTE, Field(Resurved8, Array(Plus(LENGTH, Lit(-1)), BYTE), End))), End))

  const RSN_CAPABILITY_BITS: BitList :=
    Bits(PreAuthentication, 1, false, Bits(NoPairwise, 1, false, Bits(PtksaReplayCounter, 2, false,
    Bits(GtksaReplayCounter, 2, false, Bits(ManagementFrameProtectionRequired, 1, false,
    Bits(ManagementFrameProtectionCapable, 1, false, Bits(JointMultiBandRsna, 1, false,
    Bits(PeerKeyEnabled, 1, false, Bits(SppAmsduCapable, 1, false, Bits(SppAmsduRequired, 1, false,
    Bits(Pbac, 1, false, Bits(ExtendedKeyIdForUnicast, 1, false, Bits(Ocvc, 1, false,
    Bits(Resurved, 1, false, NoBits))))))))))))))

  const RSN_CAPABILITIES: Con := Construct.BitStruct(false, RSN_CAPABILITY_BITS)

  /** The element's length reaches `base` and the counted lists before. */
  function Reaches(base: int, lists: Expr): Expr {
    AtLeast(LENGTH, Plus(Lit(base), lists))
  }

  const PAIRWISE_BYTES: Expr := Times(This(PairwiseCipherSuiteCount), Lit(4))
  const SUITE_BYTES: Expr := Plus(PAIRWISE_BYTES, Times(This(AkmSuiteCount), Lit(4)))
  const LIST_BYTES: Expr := Plus(SUITE_BYTES, Times(This(PmkidCount), Lit(16)))

  const RSN_FIELDS: FieldList :=
    Field(Version, IntLittle(2),
    Field(GroupCipherSuite, IntBig(4),
    Field(PairwiseCipherSuiteCount, IfThenElse(Reaches(8, Lit(0)), IntLittle(2), Computed(0)),
    Field(PairwiseCipherSuites, Array(This(PairwiseCipherSuiteCount), IntBig(4)),
    Field(AkmSuiteCount, IfThenElse(Reaches(10, PAIRWISE_BYTES), IntLittle(2), Computed(0)),
    Field(AkmSuites, Array(This(AkmSuiteCount), IntBig(4)),
    Field(RsnCapabilities, If(Reaches(12, SUITE_BYTES), RSN_CAPABILITIES),
    Field(PmkidCount, IfThenElse(Reaches(14, SUITE_BYTES), IntLittle(2), Computed(0)),
    Field(Pmkids, Array(This(PmkidCount), FixedBytes(Lit(16))),
    Field(GroupManagementCipherSuite, If(Reaches(18, LIST_BYTES), IntBig(4)), End))))))))))

  const MICROSOFT_CONTENT: Con := Struct(
    Field(VendorType, BYTE, Field(OtherFields, FixedBytes(Plus(Ref(2, [Len]), Lit(-4))), End)))

  const VENDOR_ELEMENT: Con := Struct(
    Field(Oui, IntBig(3),
    Field(VendorSpecificContent, Switch(This(Oui),
      Case(MICROSOFT_OUI, MICROSOFT_CONTENT, Otherwise(FixedBytes(Plus(LENGTH, Lit(-3)))))), End)))

  const ELEMENT_CASES: Cases :=
    Case(SSID_ID, SSID_ELEMENT,
    Case(1, RATES_ELEMENT,
    Case(2, FH_ELEMENT,
    Case(3, DS_ELEMENT,
    Case(4, CF_ELEMENT,
    Case(6, IBSS_ELEMENT,
    Case(7, COUNTRY_ELEMENT,
    Case(10, REQUEST_ELEMENT,
    Case(11, BSS_LOAD_ELEMENT,
    Case(RSN_ID, Struct(RSN_FIELDS),
    Case(65, RSNI_ELEMENT,
    Case(50, RATES_ELEMENT,
    Case(244, RSN_EXTENSION_ELEMENT,
    Case(VENDOR_ID, VENDOR_ELEMENT,
    Otherwise(FixedBytes(This(Len)))))))))))))))))

  const ELEMENT_INFO: Con :=
    If(AtLeast(This(Len), Lit(1)),
       IfThenElse(Equal(This(Id), Lit(EXTENSION_ID)), FixedBytes(Plus(This(Len), Lit(-1))), Switch(This(Id), ELEMENT_CASES)))

  const INFORMATION_ELEMENT: Con := Struct(
    Field(Id, BYTE,
    Field(Len, BYTE,
    Field(IdExtension, If(Equal(This(Id), Lit(EXTENSION_ID)), BYTE),
    Field(Info, ELEMENT_INFO, End)))))

  const PLAIN_VENDOR_ELEMENT: Con := Struct(
    Field(Id, BYTE, Field(Len, BYTE, Field(Content, FixedBytes(This(Len)), End))))

  const ELEMENTS: Con := GreedyRange(INFORMATION_ELEMENT)

  // ---- Management frames --------------------------------------------------------------------------

  const CAPABILITY_BITS: BitList :=
    Bits(Ess, 1, false, Bits(Ibss, 1, false, Bits(CfPollable, 1, false, Bits(CfPollRequest, 1, false,
    Bits(Privacy, 1, false, Bits(ShortPreamble, 1, false, Bits(Pbcc, 1, false,
    Bits(ChannelAgility, 1, false, Bits(SpectrumManagement, 1, false, Bits(Qos, 1, false,
    Bits(ShortSlotTime, 1, false, Bits(Apsd, 1, false, Bits(RadioMeasurement, 1, false,
    Bits(DsssOfdm, 1, false, Bits(DelayedBlockAck, 1, false, Bits(ImmediateBlockAck, 1, false,
    NoBits))))))))))))))))

  const CAPABILITY_INFO: Con := Construct.BitStruct(true, CAPABILITY_BITS)

  const ASSOCIATION_REQUEST: Con := Struct(
    Field(CapabilityInfo, CAPABILITY_INFO, Field(ListenInterval, IntLittle(2), Field(InformationElements, ELEMENTS, End))))

  const ASSOCIATION_RESPONSE: Con := Struct(
    Field(CapabilityInfo, CAPABILITY_INFO, Field(StatusCode, IntLittle(2), Field(AssociationId, IntLittle(2),
    Field(InformationElements, ELEMENTS, End)))))

  const REASSOCIATION_REQUEST: Con := Struct(
    Field(CapabilityInfo, CAPABILITY_INFO, Field(ListenInterval, IntLittle(2), Field(CurrentApAddress, MacAddress,
    Field(InformationElements, ELEMENTS, End)))))

  const PROBE_REQUEST: Con := Struct(Field(InformationElements, ELEMENTS, End))

  const PROBE_RESPONSE: Con := Struct(
    Field(Timestamp, IntLittle(8), Field(BeaconInterval, IntLittle(2), Field(CapabilityInfo, CAPABILITY_INFO,
    Field(InformationElements, ELEMENTS, End)))))

  const BEACON: Con := Struct(
    Field(Timestamp, IntLittle(8), Field(BeaconInterval, IntLittle(2), Field(CapabilityInfo, CAPABILITY_INFO,
    Field(InformationElements, ELEMENTS, Field(Mme, GreedyBytes, End))))))

  /** Disassociation and deauthentication. */
  const FAREWELL: Con := Struct(
    Field(ReasonCode, IntLittle(2), Field(VendorSpecificElements, GreedyRange(PLAIN_VENDOR_ELEMENT),
    Field(Mme, GreedyBytes, End))))

  const AUTHENTICATION: Con := Struct(
    Field(AuthAlgorithmNumber, IntLittle(2), Field(AuthTransactionSequenceNumber, IntLittle(2),
    Field(StatusCode, IntLittle(2), Field(ChallengeText, GreedyBytes, End)))))

  const ACTION: Con := Struct(Field(Category, BYTE, Field(ActionDetails, GreedyBytes, End)))

  const MANAGEMENT_CASES: Cases :=
    Case(0, ASSOCIATION_REQUEST,
    Case(1, ASSOCIATION_RESPONSE,
    Case(2, REASSOCIATION_REQUEST,
    Case(3, ASSOCIATION_RESPONSE,
    Case(4, PROBE_REQUEST,
    Case(5, PROBE_RESPONSE,
    Case(8, BEACON,
    Case(10, FAREWELL,
    Case(11, AUTHENTICATION,
    Case(12, FAREWELL,
    Case(13, ACTION,
    Case(14, ACTION,
    Otherwise(GreedyBytes)))))))))))))

  // ---- Data frames -----------------------------------------------------------------------------------

  /**
   The subtypes whose label is not below "QOS_DATA" in the order of strings,
   which is how the labels are compared: 14 and 15 are QOS_CF_..., hence below.
   */
  const QOS_SUBTYPES: set<int> := {8, 9, 10, 11, 12, 13}

  /** `this._._.frame_control.name`, seen from the header struct of a data frame. */
  function Control(name: Name): Expr {
    Ref(2, [FrameControl, name])
  }

  const QOS_BITS: BitList :=
    Bits(Tid, 4, false, Bits(Eos, 1, false, Bits(AckPolicy, 2, false, Bits(AmsduPresent, 1, false,
    Bits(TxopDurReq, 8, false, NoBits)))))

  const QOS_CONTROL: Con := Construct.BitStruct(false, QOS_BITS)

  /** `and` of two expression objects is the second one, so the HT control field depends on the order bit alone. */
  const DATA_HEADER: Con := Struct(
    Field(Address4, If(Both(Control(ToDs), Control(FromDs)), MacAddress),
    Field(QosControl, If(OneOf(Control(Subtype), QOS_SUBTYPES), QOS_CONTROL),
    Field(HtControl, If(Control(OrderOrHtc), IntLittle(4)), End))))

  const DATA_WITH_BODY: Con := Struct(Field(Header, DATA_HEADER, Field(Body, GreedyBytes, End)))

  const DATA_WITHOUT_BODY: Con := Struct(Field(Header, DATA_HEADER, End))

  const DATA_CASES: Cases :=
    Case(0, DATA_WITH_BODY, Case(1, DATA_WITH_BODY, Case(2, DATA_WITH_BODY, Case(3, DATA_WITH_BODY,
    Case(4, DATA_WITHOUT_BODY, Case(5, DATA_WITHOUT_BODY, Case(6, DATA_WITHOUT_BODY, Case(7, DATA_WITHOUT_BODY,
    Case(8, DATA_WITH_BODY, Case(9, DATA_WITH_BODY, Case(10, DATA_WITH_BODY, Case(11, DATA_WITH_BODY,
    Case(12, DATA_WITHOUT_BODY, Case(13, GreedyBytes, Case(14, DATA_WITHOUT_BODY, Case(15, DATA_WITHOUT_BODY,
    Otherwise(GreedyBytes)))))))))))))))))

  // ---- Frames ------------------------------------------------------------------------------------------

  const MANAGEMENT := 0
  const CONTROL := 1
  const DATA := 2

  const FRAME_CONTROL_BITS: BitList :=
    Bits(ProtocolVersion, 2, true, Bits(Type, 2, true, Bits(Subtype, 4, true, Bits(ToDs, 1, false,
    Bits(FromDs, 1, false, Bits(MoreFragments, 1, false, Bits(Retry, 1, false,
    Bits(PowerManagement, 1, false, Bits(MoreData, 1, false, Bits(ProtectedFrame, 1, false,
    Bits(OrderOrHtc, 1, false, NoBits)))))))))))

  const FRAME_CONTROL: Con := Construct.BitStruct(true, FRAME_CONTROL_BITS)

  const SEQUENCE_BITS: BitList :=
    Bits(FragmentNumber, 4, true, Bits(SequenceNumber, 12, true, NoBits))

  const SEQUENCE_CONTROL: Con := Construct.BitStruct(true, SEQUENCE_BITS)

  const FRAME_TYPE: Expr := Ref(0, [FrameControl, Type])
  const FRAME_SUBTYPE: Expr := Ref(0, [FrameControl, Subtype])
  const NOT_CONTROL: Expr := Differs(FRAME_TYPE, Lit(CONTROL))
  const IS_CONTROL: Expr := Equal(FRAME_TYPE, Lit(CONTROL))

  const TYPE_CASES: Cases :=
    Case(MANAGEMENT, Switch(FRAME_SUBTYPE, MANAGEMENT_CASES),
    Case(CONTROL, Struct(Field(ControlFrame, GreedyBytes, End)),
    Case(DATA, Switch(FRAME_SUBTYPE, DATA_CASES),
    Otherwise(GreedyBytes))))

  const FRAME_FIELDS: FieldList :=
    Field(FrameControl, FRAME_CONTROL,
    Field(DurationId, IntLittle(2),
    Field(Address1, MacAddress,
    Field(Address2, If(NOT_CONTROL, MacAddress),
    Field(Address3, If(NOT_CONTROL, MacAddress),
    Field(ControlData, If(IS_CONTROL, GreedyBytes),
    Field(SequenceControl, If(NOT_CONTROL, SEQUENCE_CONTROL),
    Field(FrameBody, If(NOT_CONTROL, Switch(FRAME_TYPE, TYPE_CASES)), End))))))))

  const FRAME: Con := Struct(FRAME_FIELDS)
}
