/** Which frames are accepted, and which of those rebuild to themselves, for every kind. */
module WifiWhole {
  import opened Common
  import opened Construct
  import opened ConstructLaws
  import opened WifiGrammar
  import opened WifiLaws
  import opened WifiFrames
  import opened WifiAccept
  import opened WifiTails
  import opened WifiControl
  import opened WifiLocal
  import opened WifiBodies
  import opened WifiHeader
  import opened CcmpFrames

  /** The least length of a frame, by its first two bytes. */
  function LeastLength(input: bytes): nat
    requires |input| >= 2
  {
    var t, u := TypeBits(input), SubtypeBits(input);
    if t == CONTROL then 10
    else if t == MANAGEMENT then 24 + FixedPart(u)
    else if t == DATA && u != 13 then 24 + Size(HeaderParts(input))
    else 24
  }

  /** The body of a data frame of the reserved subtype, or of a frame of a reserved type. */
  lemma OpaqueBodyParses(cs: Codecs, heading: Scope, at: bytes, frameType: int, subtype: int)
    requires Carries(heading, frameType, subtype) && (frameType > DATA || (frameType == DATA && subtype == 13))
    ensures ParseCase(cs, TYPE_CASES, frameType, [heading], at).Some?
    ensures ParseCase(cs, TYPE_CASES, frameType, [heading], at).value.rest == []
  {
    hide ParseCase, Carries, CaseOf;
    BodyCase(cs, heading, at, frameType, subtype);
    if frameType == DATA {
      DataCase(subtype);
    }
  }

  lemma OpaqueFrameFollows(cs: Codecs, input: bytes)
    requires |input| >= 2 && (TypeBits(input) > DATA || (TypeBits(input) == DATA && SubtypeBits(input) == 13))
    ensures ParseFrame(cs, input).Some? <==> |input| >= 24
    ensures ParseFrame(cs, input).Some? ==> ParseFrame(cs, input).value.rest == []
  {
    hide ParseFrame, ParseCase, TypeBits, SubtypeBits, Carries, HeadingOf, WithHeading;
    var heading := FrameFollows(cs, input);
    if |input| >= 24 {
      OpaqueBodyParses(cs, heading, input[24..], TypeBits(input), SubtypeBits(input));
      HeadingChangesNothing(heading, ParseCase(cs, TYPE_CASES, TypeBits(input), [heading], input[24..]));
    }
  }

  lemma ShortFrame(cs: Codecs, input: bytes)
    requires |input| < 2
    ensures ParseFrame(cs, input) == None
  {
    hide Parse, ParseFields;
    FrameIs(cs, input);
    OpeningParses(cs, input);
  }

  /** A frame is accepted exactly when it has the least length of its kind: which bytes it has does not matter beyond the first two. */
  lemma FrameAcceptedExactlyWhen(cs: Codecs, input: bytes)
    requires Lawful(cs)
    ensures ParseFrame(cs, input).Some? <==> |input| >= 2 && |input| >= LeastLength(input)
  {
    hide ParseFrame, TypeBits, SubtypeBits, FixedPart, HeaderParts, Size, HeaderRecord, ParsedHeader;
    if |input| < 2 {
      ShortFrame(cs, input);
    } else if TypeBits(input) == CONTROL {
      var fields := ControlFrameFollows(cs, input);
    } else if TypeBits(input) == MANAGEMENT {
      ManagementFrameFollows(cs, input);
    } else if TypeBits(input) == DATA && SubtypeBits(input) != 13 {
      DataFrameFollows(cs, input);
    } else {
      SubtypeRange(input);
      OpaqueFrameFollows(cs, input);
    }
  }

  /** Nothing trails what a frame of this kind is made of. */
  ghost predicate NothingTrails(cs: Codecs, input: bytes)
    requires |input| >= 2 && |input| >= LeastLength(input)
  {
    var t, u := TypeBits(input), SubtypeBits(input);
    if t == MANAGEMENT && u < 6 then Elementwise(cs, input[LeastLength(input)..])
    else if t == DATA && u in WITHOUT_BODY then |input| == LeastLength(input)
    else true
  }

  /**
   An accepted frame rebuilds to itself exactly when every text rebuilds and nothing trails: in
   association, reassociation and probe frames all bytes behind the fixed fields are whole
   elements, data frames without a body have their least length.
   */
  lemma AcceptedFrameRebuildsExactlyWhen(cs: Codecs, input: bytes)
    requires Lawful(cs) && ParseFrame(cs, input).Some?
    ensures |input| >= 2 && |input| >= LeastLength(input)
    ensures BuildFrame(cs, ParseFrame(cs, input).value.value) == Some(input)
            <==> NothingTrails(cs, input) && AllRebuild(cs, ParseFrame(cs, input).value.texts)
  {
    hide ParseFrame, BuildFrame, TypeBits, SubtypeBits, FixedPart, HeaderParts, Size, HeaderRecord, ParsedHeader, Elementwise,
         AllRebuild;
    FrameAcceptedExactlyWhen(cs, input);
    RebuildCheckPassesExactlyWhen(cs, input);
    SubtypeRange(input);
    if TypeBits(input) == MANAGEMENT && SubtypeBits(input) < 6 {
      ManagementFrameFollows(cs, input);
    } else if TypeBits(input) == DATA && SubtypeBits(input) in WITHOUT_BODY {
      DataFrameFollows(cs, input);
    } else {
      GreedyKindsLeaveNothing(cs, input);
    }
  }
}
