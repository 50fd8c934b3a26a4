/** The field names of the frame grammar. */
module FieldNames {
  datatype Name =
    // frame header
    | FrameControl | ProtocolVersion | Type | Subtype | ToDs | FromDs | MoreFragments | Retry | PowerManagement
    | MoreData | ProtectedFrame | OrderOrHtc
    | DurationId | Address1 | Address2 | Address3 | ControlData | SequenceControl | FragmentNumber | SequenceNumber
    | FrameBody | ControlFrame
    // data frames
    | Header | Body | Address4 | QosControl | Tid | Eos | AckPolicy | AmsduPresent | TxopDurReq | HtControl
    // management frames
    | CapabilityInfo | ListenInterval | InformationElements | StatusCode | AssociationId | CurrentApAddress
    | Timestamp | BeaconInterval | Mme | ReasonCode | VendorSpecificElements | AuthAlgorithmNumber
    | AuthTransactionSequenceNumber | ChallengeText | Category | ActionDetails
    // capability information
    | Ess | Ibss | CfPollable | CfPollRequest | Privacy | ShortPreamble | Pbcc | ChannelAgility
    | SpectrumManagement | Qos | ShortSlotTime | Apsd | RadioMeasurement | DsssOfdm | DelayedBlockAck | ImmediateBlockAck
    // information elements
    | Id | Len | IdExtension | Info | Content
    | Ssid | Rates | DwellTime | HopSet | HopPattern | HopIndex | CurrentChannel
    | CfpCount | CfpPeriod | CfpMaxDuration | CfpDurRemaining | AtimWindow
    | CountryString | CountryInfo | FirstChannelNumber | NumberOfChannels | MaxTransmitPowerLevel
    | RequestedInfoElems | StationCount | ChannelUtilization | AvailableAdmissionCapacity
    | Rsni | RsnExtendedCapabilities | ExtensionBits | Resurved8
    | Oui | VendorSpecificContent | VendorType | OtherFields
    // RSN element
    | Version | GroupCipherSuite | PairwiseCipherSuiteCount | PairwiseCipherSuites | AkmSuiteCount | AkmSuites
    | RsnCapabilities | PmkidCount | Pmkids | GroupManagementCipherSuite
    | PreAuthentication | NoPairwise | PtksaReplayCounter | GtksaReplayCounter
    | ManagementFrameProtectionRequired | ManagementFrameProtectionCapable | JointMultiBandRsna | PeerKeyEnabled
    | SppAmsduCapable | SppAmsduRequired | Pbac | ExtendedKeyIdForUnicast | Ocvc | Resurved
}
