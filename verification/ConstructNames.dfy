/** Names that are all different: bit structs then always parse, and fields parse one after the other. */
module ConstructNames {
  import opened Common
  import opened BitOrder
  import opened Construct
  import opened FieldNames
  import opened WifiGrammar

  function Names(bits: BitList): (r: seq<Name>) {
    if bits.NoBits? then [] else [bits.name] + Names(bits.rest)
  }

  predicate Distinct(names: seq<Name>) {
    forall i, j :: 0 <= i < j < |names| ==> names[i] != names[j]
  }

  lemma {:induction false} DistinctBitsParse(bits: BitList, s: seq<bit>, scope: Scope)
    requires |s| == BitWidth(bits) && Distinct(Names(bits)) && forall name :: name in scope ==> name !in Names(bits)
    ensures ParseBits(bits, s, scope).Some?
    decreases bits
  {
    if bits.Bits? {
      var names, rest := Names(bits), Names(bits.rest);
      forall j | 0 <= j < |rest|
        ensures rest[j] != bits.name && rest[j] in names
      {
        assert names[j + 1] == rest[j] && names[0] == bits.name;
      }
      assert names[1..] == rest;
      assert bits.name in names;
      DistinctBitsParse(bits.rest, s[bits.width..], scope[bits.name := Num(FieldOfBits(s[..bits.width], bits.flip))]);
    }
  }

  /** Sixteen bits parse exactly where two bytes are. */
  lemma TwoBytesParse(cs: Codecs, swapped: bool, bits: BitList, ctx: Context, input: bytes)
    requires BitWidth(bits) == 16 && Distinct(Names(bits))
    ensures |input| >= 2 ==> ParseBits(bits, Stream(input[..2], swapped), map[]).Some?
    ensures Parse(cs, Construct.BitStruct(swapped, bits), ctx, input)
         == if |input| < 2 then None
            else Some(Parsed(Rec(ParseBits(bits, Stream(input[..2], swapped), map[]).value), input[2..], []))
  {
    if |input| >= 2 {
      DistinctBitsParse(bits, Stream(input[..2], swapped), map[]);
    }
  }

  // ---- Fields --------------------------------------------------------------------------------

  function FieldNamesOf(fields: FieldList): (r: seq<Name>) {
    if fields.End? then [] else [fields.name] + FieldNamesOf(fields.rest)
  }

  lemma NamesTwoOn(f: FieldList)
    requires f.Field? && f.rest.Field?
    ensures FieldNamesOf(f) == [f.name, f.rest.name] + FieldNamesOf(f.rest.rest)
  {
    var names := FieldNamesOf(f.rest.rest);
    assert FieldNamesOf(f.rest) == [f.rest.name] + names;
    PrependTwo(f.name, f.rest.name, names);
  }

  lemma PrependTwo(a: Name, b: Name, names: seq<Name>)
    ensures [a] + ([b] + names) == [a, b] + names
  {
  }

  /** The names of the fields are all different, and none is in the record yet. */
  ghost predicate Unread(scope: Scope, fields: FieldList) {
    Distinct(FieldNamesOf(fields)) && forall name :: name in scope ==> name !in FieldNamesOf(fields)
  }

  lemma UnreadStep(scope: Scope, f: FieldList, v: Value)
    requires f.Field? && Unread(scope, f)
    ensures f.name !in scope && Unread(scope[f.name := v], f.rest)
  {
    var names, rest := FieldNamesOf(f), FieldNamesOf(f.rest);
    assert names[0] == f.name && names[1..] == rest;
    assert f.name in names;
    forall j | 0 <= j < |rest|
      ensures rest[j] != f.name && rest[j] in names
    {
      assert names[j + 1] == rest[j];
    }
  }

  /** A field that parses without text hands on to the fields after it. */
  lemma Onwards(cs: Codecs, f: FieldList, ctx: Context, scope: Scope, input: bytes, p: Parsed)
    requires f.Field? && Unread(scope, f) && Parse(cs, f.con, [scope] + ctx, input) == Some(p) && p.texts == []
    ensures Unread(scope[f.name := p.value], f.rest)
    ensures ParseFields(cs, f, ctx, scope, input) == ParseFields(cs, f.rest, ctx, scope[f.name := p.value], p.rest)
  {
    UnreadStep(scope, f, p.value);
    var q := ParseFields(cs, f.rest, ctx, scope[f.name := p.value], p.rest);
    assert q.Some? ==> [] + q.value.texts == q.value.texts;
  }

  lemma StopsThere(cs: Codecs, f: FieldList, ctx: Context, scope: Scope, input: bytes)
    requires f.Field? && Parse(cs, f.con, [scope] + ctx, input) == None
    ensures ParseFields(cs, f, ctx, scope, input) == None
  {
  }

  lemma StructIs(cs: Codecs, fields: FieldList, ctx: Context, at: bytes)
    ensures Parse(cs, Struct(fields), ctx, at)
         == match ParseFields(cs, fields, ctx, map[], at)
            case None => None
            case Some(q) => Some(Parsed(Rec(q.scope), q.rest, q.texts))
  {
  }

  lemma LastField(cs: Codecs, f: FieldList, ctx: Context, scope: Scope, input: bytes)
    requires f.Field? && f.rest.End? && f.name !in scope
    ensures ParseFields(cs, f, ctx, scope, input)
         == match Parse(cs, f.con, [scope] + ctx, input)
            case None => None
            case Some(p) => Some(ParsedFields(scope[f.name := p.value], p.rest, p.texts))
  {
    var p := Parse(cs, f.con, [scope] + ctx, input);
    assert p.Some? ==> p.value.texts + [] == p.value.texts;
  }

  // ---- Fields that are there or not --------------------------------------------------------

  /** Bytes taken, with and without a field of width `w`. */
  function Opt(present: bool, w: nat): nat {
    if present then w else 0
  }

  /** What a construct parses to, wherever it takes `w` bytes. */
  predicate ParsesTo(cs: Codecs, con: Con, ctx: Context, at: bytes, o: nat, w: nat, v: Value)
    requires o <= |at|
  {
    Parse(cs, con, ctx, at[o..]) == if o + w > |at| then None else Some(Parsed(v, at[o + w..], []))
  }

  /** A field of fixed width at `o`. */
  lemma FixedAt(cs: Codecs, f: FieldList, w: nat, v: Value, ctx: Context, scope: Scope, at: bytes, o: nat, next: nat)
    requires f.Field? && Unread(scope, f) && o <= |at|
    requires ParsesTo(cs, f.con, [scope] + ctx, at, o, w, v) && next == o + w
    ensures f.name !in scope && Unread(scope[f.name := v], f.rest)
    ensures ParseFields(cs, f, ctx, scope, at[o..])
         == if next > |at| then None else ParseFields(cs, f.rest, ctx, scope[f.name := v], at[next..])
  {
    UnreadStep(scope, f, v);
    if next > |at| {
      StopsThere(cs, f, ctx, scope, at[o..]);
    } else {
      Onwards(cs, f, ctx, scope, at[o..], Parsed(v, at[next..], []));
    }
  }

  /** An optional field of fixed width at `o`. */
  lemma OptionalAt(cs: Codecs, f: FieldList, cond: Expr, con: Con, w: nat, v: Value, ctx: Context, scope: Scope,
                   at: bytes, o: nat, there: bool, next: nat)
    requires f.Field? && f.con == If(cond, con) && Unread(scope, f) && o <= |at|
    requires Eval([scope] + ctx, cond) == Some(Truth(there))
    requires there ==> ParsesTo(cs, con, [scope] + ctx, at, o, w, v)
    requires next == o + Opt(there, w)
    ensures f.name !in scope && Unread(scope[f.name := if there then v else Nothing], f.rest)
    ensures ParseFields(cs, f, ctx, scope, at[o..])
         == if next > |at| then None
            else ParseFields(cs, f.rest, ctx, scope[f.name := if there then v else Nothing], at[next..])
  {
    FixedAt(cs, f, Opt(there, w), if there then v else Nothing, ctx, scope, at, o, next);
  }

  lemma UnreadNames(fields: FieldList)
    requires Distinct(FieldNamesOf(fields))
    ensures Unread(map[], fields)
  {
  }

  // ---- Short records ---------------------------------------------------------------------------

  lemma MoreNames(f: FieldList)
    requires f.Field? && Distinct(FieldNamesOf(f.rest)) && f.name !in FieldNamesOf(f.rest)
    ensures Distinct(FieldNamesOf(f))
  {
    var names, rest := FieldNamesOf(f), FieldNamesOf(f.rest);
    forall i, j | 0 <= i < j < |names|
      ensures names[i] != names[j]
    {
      assert names[j] == rest[j - 1] && (i > 0 ==> names[i] == rest[i - 1]);
    }
  }

  /** Fields of two, three, four and five different names. */
  lemma TwoNames(f: FieldList)
    requires f.Field? && f.rest.Field? && f.rest.rest.End? && f.name != f.rest.name
    ensures Distinct(FieldNamesOf(f)) && FieldNamesOf(f) == [f.name, f.rest.name]
  {
    NamesTwoOn(f);
  }

  lemma ThreeNames(f: FieldList)
    requires f.Field? && f.rest.Field? && f.rest.rest.Field? && f.rest.rest.rest.End?
    requires f.name !in [f.rest.name, f.rest.rest.name] && f.rest.name != f.rest.rest.name
    ensures Distinct(FieldNamesOf(f)) && FieldNamesOf(f) == [f.name] + [f.rest.name, f.rest.rest.name]
  {
    TwoNames(f.rest);
    MoreNames(f);
  }

  lemma FourNames(f: FieldList)
    requires f.Field? && f.rest.Field? && f.rest.rest.Field? && f.rest.rest.rest.Field? && f.rest.rest.rest.rest.End?
    requires f.name !in [f.rest.name, f.rest.rest.name, f.rest.rest.rest.name]
    requires f.rest.name !in [f.rest.rest.name, f.rest.rest.rest.name] && f.rest.rest.name != f.rest.rest.rest.name
    ensures Distinct(FieldNamesOf(f)) && FieldNamesOf(f) == [f.name] + [f.rest.name, f.rest.rest.name, f.rest.rest.rest.name]
  {
    ThreeNames(f.rest);
    MoreNames(f);
  }

  lemma FiveNames(f: FieldList)
    requires f.Field? && f.rest.Field? && f.rest.rest.Field? && f.rest.rest.rest.Field? && f.rest.rest.rest.rest.Field?
    requires f.rest.rest.rest.rest.rest.End?
    requires f.name !in [f.rest.name, f.rest.rest.name, f.rest.rest.rest.name, f.rest.rest.rest.rest.name]
    requires f.rest.name !in [f.rest.rest.name, f.rest.rest.rest.name, f.rest.rest.rest.rest.name]
    requires f.rest.rest.name !in [f.rest.rest.rest.name, f.rest.rest.rest.rest.name]
    requires f.rest.rest.rest.name != f.rest.rest.rest.rest.name
    ensures Distinct(FieldNamesOf(f))
  {
    FourNames(f.rest);
    MoreNames(f);
  }

  // ---- The bit structs of the grammar --------------------------------------------------------

  predicate Apart(a: seq<Name>, b: seq<Name>) {
    forall i, j :: 0 <= i < |a| && 0 <= j < |b| ==> a[i] != b[j]
  }

  lemma FourDiffer(a: Name, b: Name, c: Name, d: Name)
    requires a != b && a != c && a != d && b != c && b != d && c != d
    ensures Distinct([a, b, c, d])
  {
  }

  lemma TwoDiffer(a: Name, b: Name)
    requires a != b
    ensures Distinct([a, b])
  {
  }

  lemma ThreeDiffer(a: Name, b: Name, c: Name)
    requires a != b && a != c && b != c
    ensures Distinct([a, b, c])
  {
  }

  lemma FourApart(a: Name, b: Name, c: Name, d: Name, others: seq<Name>)
    requires a !in others && b !in others && c !in others && d !in others
    ensures Apart([a, b, c, d], others)
  {
  }

  lemma DistinctParts(a: seq<Name>, b: seq<Name>)
    requires Distinct(a) && Distinct(b) && Apart(a, b)
    ensures Distinct(a + b)
  {
  }

  const LOW_CONTROL_NAMES: seq<Name> := [ProtocolVersion, Type, Subtype, ToDs, FromDs, MoreFragments]

  const HIGH_CONTROL_NAMES: seq<Name> := [Retry, PowerManagement, MoreData, ProtectedFrame, OrderOrHtc]

  lemma ControlNamesAre()
    ensures Names(FRAME_CONTROL_BITS) == LOW_CONTROL_NAMES + HIGH_CONTROL_NAMES
  {
  }

  lemma ControlNamesDiffer()
    ensures Distinct(LOW_CONTROL_NAMES) && Distinct(HIGH_CONTROL_NAMES)
  {
  }

  lemma ControlNamesApart()
    ensures Apart(LOW_CONTROL_NAMES, HIGH_CONTROL_NAMES)
  {
  }

  lemma ControlNames()
    ensures Distinct(Names(FRAME_CONTROL_BITS))
  {
    ControlNamesAre();
    ControlNamesDiffer();
    ControlNamesApart();
    DistinctParts(LOW_CONTROL_NAMES, HIGH_CONTROL_NAMES);
  }

  lemma SequenceNames()
    ensures Distinct(Names(SEQUENCE_BITS))
  {
  }

  lemma QosNames()
    ensures Distinct(Names(QOS_BITS))
  {
  }

  const LOW_CAPABILITY_NAMES: seq<Name> := [
    PreAuthentication, NoPairwise, PtksaReplayCounter, GtksaReplayCounter,
    ManagementFrameProtectionRequired, ManagementFrameProtectionCapable, JointMultiBandRsna]

  const HIGH_CAPABILITY_NAMES: seq<Name> := [
    PeerKeyEnabled, SppAmsduCapable, SppAmsduRequired, Pbac, ExtendedKeyIdForUnicast, Ocvc, Resurved]

  lemma CapabilityNamesAre()
    ensures Names(RSN_CAPABILITY_BITS) == LOW_CAPABILITY_NAMES + HIGH_CAPABILITY_NAMES
  {
  }

  lemma LowCapabilityNames()
    ensures Distinct(LOW_CAPABILITY_NAMES)
  {
    hide Distinct, Apart;
    var a := [PreAuthentication, NoPairwise, PtksaReplayCounter, GtksaReplayCounter];
    var b := [ManagementFrameProtectionRequired, ManagementFrameProtectionCapable, JointMultiBandRsna];
    FourDiffer(PreAuthentication, NoPairwise, PtksaReplayCounter, GtksaReplayCounter);
    ThreeDiffer(ManagementFrameProtectionRequired, ManagementFrameProtectionCapable, JointMultiBandRsna);
    FourApart(PreAuthentication, NoPairwise, PtksaReplayCounter, GtksaReplayCounter, b);
    DistinctParts(a, b);
    assert LOW_CAPABILITY_NAMES == a + b;
  }

  lemma HighCapabilityNames()
    ensures Distinct(HIGH_CAPABILITY_NAMES)
  {
    hide Distinct, Apart;
    var a, b := [PeerKeyEnabled, SppAmsduCapable, SppAmsduRequired, Pbac], [ExtendedKeyIdForUnicast, Ocvc, Resurved];
    FourDiffer(PeerKeyEnabled, SppAmsduCapable, SppAmsduRequired, Pbac);
    ThreeDiffer(ExtendedKeyIdForUnicast, Ocvc, Resurved);
    FourApart(PeerKeyEnabled, SppAmsduCapable, SppAmsduRequired, Pbac, b);
    DistinctParts(a, b);
    assert HIGH_CAPABILITY_NAMES == a + b;
  }

  lemma CapabilityNamesApart()
    ensures Apart(LOW_CAPABILITY_NAMES, HIGH_CAPABILITY_NAMES)
  {
  }

  lemma RsnCapabilityNames()
    ensures Distinct(Names(RSN_CAPABILITY_BITS))
  {
    CapabilityNamesAre();
    LowCapabilityNames();
    HighCapabilityNames();
    CapabilityNamesApart();
    DistinctParts(LOW_CAPABILITY_NAMES, HIGH_CAPABILITY_NAMES);
  }

  const LOW_INFO_NAMES: seq<Name> :=
    [Ess, Ibss, CfPollable, CfPollRequest, Privacy, ShortPreamble, Pbcc, ChannelAgility]

  const HIGH_INFO_NAMES: seq<Name> :=
    [SpectrumManagement, Qos, ShortSlotTime, Apsd, RadioMeasurement, DsssOfdm, DelayedBlockAck, ImmediateBlockAck]

  lemma FourOn(bits: BitList)
    requires bits.Bits? && bits.rest.Bits? && bits.rest.rest.Bits? && bits.rest.rest.rest.Bits?
    ensures var b1 := bits.rest; var b2 := b1.rest; var b3 := b2.rest;
            && Names(bits) == [bits.name, b1.name, b2.name, b3.name] + Names(b3.rest)
            && BitWidth(bits) == bits.width + b1.width + b2.width + b3.width + BitWidth(b3.rest)
  {
    var b2 := bits.rest.rest;
    assert Names(b2) == [b2.name, b2.rest.name] + Names(b2.rest.rest);
    assert BitWidth(b2) == b2.width + b2.rest.width + BitWidth(b2.rest.rest);
  }

  lemma InfoNamesAre()
    ensures Names(CAPABILITY_BITS) == LOW_INFO_NAMES + HIGH_INFO_NAMES && BitWidth(CAPABILITY_BITS) == 16
  {
    var b4 := CAPABILITY_BITS.rest.rest.rest.rest;
    var b8 := b4.rest.rest.rest.rest;
    var b12 := b8.rest.rest.rest.rest;
    FourOn(CAPABILITY_BITS);
    FourOn(b4);
    FourOn(b8);
    FourOn(b12);
    assert b12.rest.rest.rest.rest == NoBits;
  }

  lemma LowInfoNames()
    ensures Distinct(LOW_INFO_NAMES)
  {
    hide Distinct, Apart;
    var a, b := [Ess, Ibss, CfPollable, CfPollRequest], [Privacy, ShortPreamble, Pbcc, ChannelAgility];
    FourDiffer(Ess, Ibss, CfPollable, CfPollRequest);
    FourDiffer(Privacy, ShortPreamble, Pbcc, ChannelAgility);
    FourApart(Ess, Ibss, CfPollable, CfPollRequest, b);
    DistinctParts(a, b);
    assert LOW_INFO_NAMES == a + b;
  }

  lemma HighInfoNames()
    ensures Distinct(HIGH_INFO_NAMES)
  {
    hide Distinct, Apart;
    var a, b := [SpectrumManagement, Qos, ShortSlotTime, Apsd], [RadioMeasurement, DsssOfdm, DelayedBlockAck, ImmediateBlockAck];
    FourDiffer(SpectrumManagement, Qos, ShortSlotTime, Apsd);
    FourDiffer(RadioMeasurement, DsssOfdm, DelayedBlockAck, ImmediateBlockAck);
    FourApart(SpectrumManagement, Qos, ShortSlotTime, Apsd, b);
    DistinctParts(a, b);
    assert HIGH_INFO_NAMES == a + b;
  }

  lemma InfoNamesApart()
    ensures Apart(LOW_INFO_NAMES, HIGH_INFO_NAMES)
  {
  }

  lemma CapabilityInfoNames()
    ensures Distinct(Names(CAPABILITY_BITS)) && BitWidth(CAPABILITY_BITS) == 16
  {
    InfoNamesAre();
    LowInfoNames();
    HighInfoNames();
    InfoNamesApart();
    DistinctParts(LOW_INFO_NAMES, HIGH_INFO_NAMES);
  }
}
