/** The security list over the bytes of the element list. */
module ElementsBytes {
  import opened Common
  import opened Numbers
  import opened Construct
  import opened ConstructLaws
  import opened ConstructTail
  import opened FieldNames
  import opened WifiGrammar
  import opened WifiLaws
  import opened WifiTails
  import opened WifiElements
  import opened WifiRsnLayout
  import opened WifiContents
  import opened WifiFrames
  import opened WifiControl
  import opened WifiAccept
  import opened WifiValues
  import opened WifiSizes
  import opened Elements
  import opened ElementsLaws
  import opened ElementsRsn
  import opened ElementsFrames
  import opened ElementsWhole

  // ---- One element -----------------------------------------------------------------------------

  /** A vendor element at `o` announces WPA: its content starts 00 50 F2 01. */
  predicate WpaAt(at: bytes, o: nat) {
    o + 2 <= |at| && at[o] == 221 && at[o + 1] != 0 && WpaBytes(at[o + 2..])
  }

  predicate RsnAt(at: bytes, o: nat) {
    o + 2 <= |at| && at[o] == 48
  }

  /** The class of the RSN element at `o`. */
  function ClassAt(at: bytes, o: nat): WiFiSecurity
    requires o + 2 <= |at|
  {
    ClassOfBytes(at[o + 2..], LayoutOf(at[o + 2..], at[o + 1]))
  }

  /** A parsed element has the id of its first byte. */
  lemma ElementIdIs(cs: Codecs, ctx: Context, input: bytes)
    requires Lawful(cs) && Parse(cs, INFORMATION_ELEMENT, ctx, input).Some?
    ensures |input| >= 2 && IdOf(Parse(cs, INFORMATION_ELEMENT, ctx, input).value.value) == Some(input[0])
  {
    hide Parse, ContentOfBytes;
    ElementTakesTwo(cs, ctx, input);
    if input[0] == 255 {
      ExtensionElementIs(cs, ctx, input);
    } else if input[0] == 48 {
      var p := ElementIs(cs, ctx, input);
      HeadedElement(input[0], input[1], p.value);
    } else {
      ElementOfBytes(cs, ctx, input);
    }
  }

  /** A parsed element announces WPA exactly as its bytes do. */
  lemma ElementAnnounces(cs: Codecs, ctx: Context, input: bytes)
    requires Lawful(cs) && Parse(cs, INFORMATION_ELEMENT, ctx, input).Some?
    ensures |input| >= 2
    ensures var v := Parse(cs, INFORMATION_ELEMENT, ctx, input).value.value;
            IdOf(v) == Some(221) && AnnouncesWpa(v) == Some(true) <==> WpaAt(input, 0)
  {
    hide Parse, WpaBytes, AnnouncesWpa;
    ElementIdIs(cs, ctx, input);
    if input[0] == 221 {
      if input[1] != 0 {
        WpaAnnouncedExactlyWhen(cs, ctx, input);
      } else {
        EmptyVendorRaises(cs, ctx, input);
      }
    }
  }

  lemma EmptyVendorRaises(cs: Codecs, ctx: Context, input: bytes)
    requires |input| >= 2 && input[0] == 221 && input[1] == 0 && Parse(cs, INFORMATION_ELEMENT, ctx, input).Some?
    ensures AnnouncesWpa(Parse(cs, INFORMATION_ELEMENT, ctx, input).value.value) == None
  {
    hide Parse;
    ElementOfBytes(cs, ctx, input);
  }

  /** A parsed RSN element with a class has the class of its bytes. */
  lemma ElementClass(cs: Codecs, ctx: Context, input: bytes)
    requires |input| >= 2 && input[0] == 48 && Parse(cs, INFORMATION_ELEMENT, ctx, input).Some?
    requires RsnClass(ContentOf(Parse(cs, INFORMATION_ELEMENT, ctx, input).value.value)).Some?
    ensures RsnClass(ContentOf(Parse(cs, INFORMATION_ELEMENT, ctx, input).value.value)) == Some(ClassAt(input, 0))
  {
    hide Parse, RsnClass, ClassOfBytes, LayoutOf;
    if input[1] == 0 {
      var p := ElementIs(cs, ctx, input);
      HeadedElement(input[0], 0, p.value);
      NothingHasNoClass();
    } else {
      RsnClassIsDocumentedExactlyWhen(cs, ctx, input);
    }
  }

  lemma NothingHasNoClass()
    ensures RsnClass(Nothing) == None
  {
  }

  // ---- The list ------------------------------------------------------------------------------------

  /** The first RSN element of the list is its `i`-th element. */
  predicate FirstRsn(at: bytes, starts: seq<nat>, i: nat)
    requires i < |starts|
  {
    RsnAt(at, starts[i]) && forall j :: 0 <= j < i ==> !RsnAt(at, starts[j])
  }

  ghost predicate SomeWpa(at: bytes, starts: seq<nat>) {
    exists i :: 0 <= i < |starts| - 1 && WpaAt(at, starts[i])
  }

  /** The list that the elements starting here deserve: WPA, then the class of the first RSN element, or the privacy bit alone. */
  ghost predicate Deserved(at: bytes, starts: seq<nat>, privacy: Option<bool>, s: seq<WiFiSecurity>) {
    var wpa := SomeWpa(at, starts);
    && (forall i :: 0 <= i < |starts| - 1 && FirstRsn(at, starts, i) ==>
          s == (if wpa then [WPA] else []) + [ClassAt(at, starts[i])])
    && ((forall i :: 0 <= i < |starts| - 1 ==> !RsnAt(at, starts[i])) ==>
          if wpa then s == [WPA] else privacy.Some? && s == [if privacy.value then WEP else OPEN])
  }

  lemma {:induction false} FirstWithId(list: seq<Value>, id: int, i: nat)
    requires i < |list| && IdOf(list[i]) == Some(id) && forall j :: 0 <= j < i ==> IdOf(list[j]) != Some(id)
    ensures WithId(list, id) != [] && WithId(list, id)[0] == list[i]
    decreases i
  {
    if i > 0 {
      FirstWithId(list[1..], id, i - 1);
    }
  }

  lemma TileAnnounces(cs: Codecs, ctx: Context, at: bytes, items: seq<Value>, starts: seq<nat>, i: nat)
    requires Lawful(cs) && Tiles(Reads(cs, INFORMATION_ELEMENT, ctx), at, items, starts) && i < |items|
    ensures starts[i] + 2 <= |at| && IdOf(items[i]) == Some(at[starts[i]])
    ensures IdOf(items[i]) == Some(221) && AnnouncesWpa(items[i]) == Some(true) <==> WpaAt(at, starts[i])
    ensures IdOf(items[i]) == Some(48) && RsnClass(ContentOf(items[i])).Some? ==>
              RsnClass(ContentOf(items[i])) == Some(ClassAt(at, starts[i]))
  {
    hide Parse, RsnClass, AnnouncesWpa, WpaBytes, ClassOfBytes, LayoutOf;
    assert TileAt(Reads(cs, INFORMATION_ELEMENT, ctx), at, items, starts, i);
    var here := at[starts[i]..];
    ElementIdIs(cs, ctx, here);
    FitsInPlace(at, starts[i]);
    ElementAnnounces(cs, ctx, here);
    if here[0] == 48 && RsnClass(ContentOf(items[i])).Some? {
      ElementClass(cs, ctx, here);
    }
  }

  /** Some vendor element announces WPA exactly when the bytes of one do. */
  lemma MatchesAreBytes(at: bytes, list: seq<Value>, starts: seq<nat>)
    requires |starts| == |list| + 1
    requires forall i :: 0 <= i < |list| ==>
               (IdOf(list[i]) == Some(221) && AnnouncesWpa(list[i]) == Some(true) <==> WpaAt(at, starts[i]))
    ensures SomeMatches(WithId(list, 221)) <==> SomeWpa(at, starts)
  {
    hide WpaAt, AnnouncesWpa, IdOf;
    if SomeMatches(WithId(list, 221)) {
      var v :| v in WithId(list, 221) && AnnouncesWpa(v) == Some(true);
      WithIdMember(list, 221, v);
      var i :| 0 <= i < |list| && list[i] == v;
      assert WpaAt(at, starts[i]);
    }
    if SomeWpa(at, starts) {
      var i :| 0 <= i < |starts| - 1 && WpaAt(at, starts[i]);
      MemberWithId(list, 221, i);
    }
  }

  lemma {:induction false} MemberWithId(list: seq<Value>, id: int, i: nat)
    requires i < |list| && IdOf(list[i]) == Some(id)
    ensures list[i] in WithId(list, id)
    decreases i
  {
    if i > 0 {
      MemberWithId(list[1..], id, i - 1);
    }
  }

  lemma ListDeserves(at: bytes, list: seq<Value>, starts: seq<nat>, privacy: Option<bool>)
    requires |starts| == |list| + 1 && Classify(list, privacy).Some?
    requires forall i :: 0 <= i < |list| ==> starts[i] + 2 <= |at| && IdOf(list[i]) == Some(at[starts[i]])
    requires SomeMatches(WithId(list, 221)) <==> SomeWpa(at, starts)
    requires forall i :: 0 <= i < |list| && IdOf(list[i]) == Some(48) && RsnClass(ContentOf(list[i])).Some? ==>
               RsnClass(ContentOf(list[i])) == Some(ClassAt(at, starts[i]))
    ensures Deserved(at, starts, privacy, Classify(list, privacy).value)
  {
    hide IdOf, RsnClass, ContentOf, ClassAt, WithId, Classify, SomeMatches, SomeWpa;
    var s := Classify(list, privacy).value;
    SecurityShape(list, privacy);
    forall i | 0 <= i < |list| && FirstRsn(at, starts, i)
      ensures s == (if SomeWpa(at, starts) then [WPA] else []) + [ClassAt(at, starts[i])]
    {
      forall j | 0 <= j < i
        ensures IdOf(list[j]) != Some(48)
      {
        assert !RsnAt(at, starts[j]);
      }
      FirstWithId(list, 48, i);
    }
    if forall i :: 0 <= i < |starts| - 1 ==> !RsnAt(at, starts[i]) {
      forall v | v in list
        ensures IdOf(v) != Some(48)
      {
        var i :| 0 <= i < |list| && list[i] == v;
        assert !RsnAt(at, starts[i]);
      }
      NoneWithId(list, 48);
    }
  }

  /**
   The security list of the elements among these bytes, whenever there is one: WPA if a vendor element starts
   00 50 F2 01, then the class of the first RSN element off its bytes; without either, the privacy bit.
   */
  lemma SecurityOfBytes(cs: Codecs, ctx: Context, at: bytes, privacy: Option<bool>) returns (starts: seq<nat>)
    requires Lawful(cs)
    ensures Parse(cs, ELEMENTS, ctx, at).Some? && Parse(cs, ELEMENTS, ctx, at).value.value.Listing?
    ensures var list := Parse(cs, ELEMENTS, ctx, at).value.value.items;
            && Tiles(Reads(cs, INFORMATION_ELEMENT, ctx), at, list, starts) && starts[0] == 0
            && (Classify(list, privacy).Some? ==> Deserved(at, starts, privacy, Classify(list, privacy).value))
  {
    hide Parse, IdOf, RsnClass, ContentOf, ClassAt, WithId, Classify, SomeMatches, SomeWpa, WpaAt, AnnouncesWpa, Deserved;
    starts := ElementsTilePrefix(cs, ctx, at);
    var list := Parse(cs, ELEMENTS, ctx, at).value.value.items;
    forall i | 0 <= i < |list|
      ensures starts[i] + 2 <= |at| && IdOf(list[i]) == Some(at[starts[i]])
      ensures IdOf(list[i]) == Some(221) && AnnouncesWpa(list[i]) == Some(true) <==> WpaAt(at, starts[i])
      ensures IdOf(list[i]) == Some(48) && RsnClass(ContentOf(list[i])).Some? ==>
                RsnClass(ContentOf(list[i])) == Some(ClassAt(at, starts[i]))
    {
      TileAnnounces(cs, ctx, at, list, starts, i);
    }
    MatchesAreBytes(at, list, starts);
    if Classify(list, privacy).Some? {
      ListDeserves(at, list, starts, privacy);
    }
  }

  // ---- Whole frames ----------------------------------------------------------------------------------

  /** Where the elements of a frame start: behind the fixed fields of these management subtypes. */
  function ElementsStart(input: bytes): Option<nat>
    requires |input| >= 2
  {
    var u := SubtypeBits(input);
    if TypeBits(input) != 0 then None
    else if u == 4 then Some(24)
    else if u == 0 then Some(28)
    else if u == 1 || u == 3 then Some(30)
    else if u == 2 then Some(34)
    else if u == 5 || u == 8 then Some(36)
    else None
  }

  lemma BodyElements(cs: Codecs, f: Scope, subtype: nat, input: bytes)
    requires |input| >= 24 && FrameBody in f && BodySays(cs, subtype, f[FrameBody], input[24..])
    requires TypeBits(input) == 0 && SubtypeBits(input) == subtype < 16
    ensures var start := ElementsStart(input);
            if start.Some? then
              && start.value <= |input| && FrameBody in f && f[FrameBody].Rec?
              && ElementsFrom(cs, f[FrameBody].fields, input[start.value..])
            else ElementsOf(f) == []
  {
    hide TypeBits, SubtypeBits, ElementsFrom, CapabilitiesAt, AddressAt, ElementsOfBytes, PlainVendors, U16, U64;
    var at := input[24..];
    assert at == input[24..] && (|at| >= 4 ==> at[4..] == input[28..]) && (|at| >= 6 ==> at[6..] == input[30..]);
    assert (|at| >= 10 ==> at[10..] == input[34..]) && (|at| >= 12 ==> at[12..] == input[36..]);
  }

  lemma ListedElements(cs: Codecs, f: Scope, at: bytes)
    requires Lawful(cs) && FrameBody in f && f[FrameBody].Rec? && ElementsFrom(cs, f[FrameBody].fields, at)
    ensures Parse(cs, ELEMENTS, [], at).Some? && Parse(cs, ELEMENTS, [], at).value.value == Listing(ElementsOf(f))
  {
    hide Parse;
    ElementsAlwaysParse(cs, [], at);
    var starts := ElementsTilePrefix(cs, [], at);
  }

  lemma OtherElements(f: Scope, frameType: nat, subtype: nat, input: bytes)
    requires |input| >= 24 && FrameBody in f && frameType > 1
    requires if frameType == 2 then DataBodySays(f[FrameBody], subtype, input[1], input[24..]) else f[FrameBody] == Data(input[24..])
    ensures ElementsOf(f) == []
  {
    hide HeaderSays;
  }

  /** The elements of an accepted frame are those among the bytes behind its fixed fields; other kinds have none. */
  lemma FrameElementsAre(cs: Codecs, input: bytes)
    requires Lawful(cs) && |input| >= 2 && ParseFrame(cs, input).Some?
    ensures ParseFrame(cs, input).value.value.Rec?
    ensures var list, start := ElementsOf(ParseFrame(cs, input).value.value.fields), ElementsStart(input);
            if start.None? then list == []
            else
              && start.value <= |input| && Parse(cs, ELEMENTS, [], input[start.value..]).Some?
              && Parse(cs, ELEMENTS, [], input[start.value..]).value.value == Listing(list)
  {
    hide ParseFrame, Parse, TypeBits, SubtypeBits, ElementsOf, BodySays, DataBodySays, HeadingSays, ElementsFrom, ControlFrameSays;
    SubtypeRange(input);
    if TypeBits(input) == CONTROL {
      var fields := ControlFrameFollows(cs, input);
      NoBodyNoPrivacy(fields);
    } else {
      FrameValues(cs, input);
      var f := ParseFrame(cs, input).value.value.fields;
      if TypeBits(input) == MANAGEMENT {
        BodyElements(cs, f, SubtypeBits(input), input);
        if ElementsStart(input).Some? {
          ListedElements(cs, f, input[ElementsStart(input).value..]);
        }
      } else {
        OtherElements(f, TypeBits(input), SubtypeBits(input), input);
      }
    }
  }

  /**
   The security list of an accepted frame, whenever there is one, off its bytes: for frames with elements what these
   deserve, with bit 4 of capability information as the privacy bit; for all others OPEN.
   */
  lemma FrameSecurityIs(cs: Codecs, input: bytes) returns (starts: seq<nat>)
    requires Lawful(cs) && |input| >= 2 && ParseFrame(cs, input).Some?
    ensures ParseFrame(cs, input).value.value.Rec?
    ensures var frame, start := ParseFrame(cs, input).value.value.fields, ElementsStart(input);
            var s := Classify(ElementsOf(frame), Private(frame));
            && (start.None? && s.Some? ==> s == Some([OPEN]))
            && (start.Some? ==>
                  && start.value <= |input|
                  && var at := input[start.value..];
                     && Tiles(Reads(cs, INFORMATION_ELEMENT, []), at, ElementsOf(frame), starts) && starts[0] == 0
                     && (s.Some? ==> Deserved(at, starts, PrivacyOf(input), s.value)))
  {
    hide ParseFrame, Parse, TypeBits, SubtypeBits, ElementsOf, Private, Classify, Deserved, Tiles;
    FrameElementsAre(cs, input);
    FramePrivacy(cs, input);
    starts := [];
    var start := ElementsStart(input);
    if start.Some? {
      starts := SecurityOfBytes(cs, [], input[start.value..], PrivacyOf(input));
    } else {
      NoElementsNoSecurity(input);
    }
  }

  lemma NoElementsNoSecurity(input: bytes)
    requires |input| >= 2 && ElementsStart(input).None?
    ensures Classify([], PrivacyOf(input)).Some? ==> Classify([], PrivacyOf(input)) == Some([OPEN])
  {
    hide TypeBits, SubtypeBits;
  }
}
