/** Parsed elements, as the security classification reads them. */
module ElementsFrames {
  import opened Common
  import opened Construct
  import opened ConstructLaws
  import opened ConstructTail
  import opened FieldNames
  import opened WifiGrammar
  import opened WifiLaws
  import opened WifiTails
  import opened WifiElements
  import opened WifiContents
  import opened Elements
  import opened ElementsLaws
  import opened ElementsRsn

  // ---- Vendor elements ------------------------------------------------------------------------

  /** The bytes after an element's head announce WPA: Microsoft's OUI and type 1. */
  predicate WpaBytes(at: bytes) {
    |at| >= 4 && at[0] == 0x00 && at[1] == 0x50 && at[2] == 0xF2 && at[3] == 1
  }

  /** A vendor element with this content. */
  lemma VendorAnnounces(scope: Scope, length: nat, at: bytes)
    requires VendorContent(length, at).Some?
    requires Info in scope && scope[Info] == VendorContent(length, at).value.value
    ensures AnnouncesWpa(Rec(scope)) == Some(WpaBytes(at))
  {
    var info := scope[Info].fields;
    OuiOfBytes(at);
    if info[Oui] == Num(MICROSOFT_OUI) {
      var content := info[VendorSpecificContent].fields;
      assert content[VendorType] == Num(at[3]);
    }
  }

  // ---- Any element -------------------------------------------------------------------------------------

  /** Reading a vendor or RSN element raises exactly when its length is 0. */
  predicate RaisesWhenEmpty(v: Value) {
    && v.Rec? && Len in v.fields
    && (IdOf(v) == Some(VENDOR_ID) ==> (AnnouncesWpa(v) == None <==> v.fields[Len] == Num(0)))
    && (IdOf(v) == Some(RSN_ID) ==> (RsnClass(ContentOf(v)) == None <==> v.fields[Len] == Num(0)))
  }

  lemma ElementNeedsTwo(cs: Codecs, ctx: Context, input: bytes)
    requires Lawful(cs) && Parse(cs, INFORMATION_ELEMENT, ctx, input).Some?
    ensures |input| >= 2
  {
    ElementTakesTwo(cs, ctx, input);
  }

  lemma HeadedElement(id: int, length: int, content: Value)
    ensures var v := Rec(ElementHead(id, length)[Info := content]);
            IdOf(v) == Some(id) && Len in v.fields && v.fields[Len] == Num(length) && ContentOf(v) == content
  {
    var scope := ElementHead(id, length)[Info := content];
    assert Id in scope && scope[Id] == Num(id);
    assert Len in scope && scope[Len] == Num(length);
    assert Info in scope && scope[Info] == content;
  }

  /** A vendor element with content announces WPA exactly when its first four bytes are 00 50 F2 01. */
  lemma WpaAnnouncedExactlyWhen(cs: Codecs, ctx: Context, input: bytes)
    requires |input| >= 2 && input[0] == 221 && input[1] != 0 && Parse(cs, INFORMATION_ELEMENT, ctx, input).Some?
    ensures AnnouncesWpa(Parse(cs, INFORMATION_ELEMENT, ctx, input).value.value) == Some(WpaBytes(input[2..]))
  {
    hide Parse, VendorContent, AnnouncesWpa, WpaBytes;
    ElementOfBytes(cs, ctx, input);
    VendorAnnounces(Parse(cs, INFORMATION_ELEMENT, ctx, input).value.value.fields, input[1], input[2..]);
  }

  lemma ExtensionElement(cs: Codecs, ctx: Context, input: bytes)
    requires |input| >= 2 && input[0] == EXTENSION_ID && Parse(cs, INFORMATION_ELEMENT, ctx, input).Some?
    ensures RaisesWhenEmpty(Parse(cs, INFORMATION_ELEMENT, ctx, input).value.value)
  {
    var fields := INFORMATION_ELEMENT.fields;
    ByteParses(cs, [map[]] + ctx, input);
    var p0, q0 := FieldStep(cs, Id, BYTE, fields.rest, ctx, map[], input);
    var s1: Scope := map[Id := Num(EXTENSION_ID)];
    var p1, q1 := FieldStep(cs, Len, BYTE, fields.rest.rest, ctx, s1, input[1..]);
    var s2 := s1[Len := p1.value];
    FieldsKeep(cs, fields.rest.rest, ctx, s2, p1.rest);
    IdThenLen(EXTENSION_ID, p1.value);
    OtherElement(q1.scope);
  }

  lemma IdThenLen(id: int, length: Value)
    ensures var scope: Scope := map[Id := Num(id)];
            Says(scope[Len := length], Id, id) && Len in scope[Len := length]
  {
  }

  lemma OtherElement(scope: Scope)
    requires Says(scope, Id, EXTENSION_ID) && Len in scope
    ensures RaisesWhenEmpty(Rec(scope))
  {
    assert IdOf(Rec(scope)) == Some(EXTENSION_ID);
  }

  lemma ParsedElement(cs: Codecs, ctx: Context, input: bytes)
    requires Lawful(cs) && Parse(cs, INFORMATION_ELEMENT, ctx, input).Some?
    ensures RaisesWhenEmpty(Parse(cs, INFORMATION_ELEMENT, ctx, input).value.value)
  {
    ElementNeedsTwo(cs, ctx, input);
    var id, length := input[0], input[1];
    if id == EXTENSION_ID {
      ExtensionElement(cs, ctx, input);
    } else {
      var p := ElementIs(cs, ctx, input);
      var v := Parse(cs, INFORMATION_ELEMENT, ctx, input).value.value;
      HeadedElement(id, length, p.value);
      if id == VENDOR_ID {
        if length != 0 {
          WpaAnnouncedExactlyWhen(cs, ctx, input);
        }
      } else if id == RSN_ID && length != 0 {
        RsnClassIsDocumentedExactlyWhen(cs, ctx, input);
      }
    }
  }

  /** In every parsed list of elements, the classification raises at vendor and RSN elements of length 0 and at no other element. */
  lemma ParsedElementsRaiseOnlyWhenEmpty(cs: Codecs, ctx: Context, input: bytes, i: nat)
    requires Lawful(cs) && Parse(cs, ELEMENTS, ctx, input).Some? && Parse(cs, ELEMENTS, ctx, input).value.value.Listing?
    requires i < |Parse(cs, ELEMENTS, ctx, input).value.value.items|
    ensures RaisesWhenEmpty(Parse(cs, ELEMENTS, ctx, input).value.value.items[i])
  {
    var starts := ElementsTilePrefix(cs, ctx, input);
    var items := Parse(cs, ELEMENTS, ctx, input).value.value.items;
    assert TileAt(Reads(cs, INFORMATION_ELEMENT, ctx), input, items, starts, i);
    ParsedElement(cs, ctx, input[starts[i]..]);
  }

  // ---- When the classification raises ---------------------------------------------------------------------

  /** The `i`-th vendor element is empty and none before it announces WPA or is empty. */
  predicate StopsAt(vendors: seq<Value>, i: nat) {
    i < |vendors| && AnnouncesWpa(vendors[i]) == None && forall j :: 0 <= j < i ==> AnnouncesWpa(vendors[j]) == Some(false)
  }

  lemma {:induction false} ScanRaisesExactlyWhen(vendors: seq<Value>)
    ensures AnyWpa(vendors) == None <==> exists i: nat :: StopsAt(vendors, i)
  {
    if vendors != [] {
      var rest := vendors[1..];
      ScanRaisesExactlyWhen(rest);
      if AnyWpa(vendors) == None {
        if AnnouncesWpa(vendors[0]) == None {
          assert StopsAt(vendors, 0);
        } else {
          var i: nat :| StopsAt(rest, i);
          forall j | 0 <= j < i + 1
            ensures AnnouncesWpa(vendors[j]) == Some(false)
          {
            assert j > 0 ==> vendors[j] == rest[j - 1];
          }
          assert StopsAt(vendors, i + 1);
        }
      } else if exists i: nat :: StopsAt(vendors, i) {
        var i: nat :| StopsAt(vendors, i);
        if i > 0 {
          forall j | 0 <= j < i - 1
            ensures AnnouncesWpa(rest[j]) == Some(false)
          {
            assert rest[j] == vendors[j + 1];
          }
          assert StopsAt(rest, i - 1);
        }
      }
    }
  }

  predicate IsEmpty(v: Value) {
    v.Rec? && Len in v.fields && v.fields[Len] == Num(0)
  }

  /**
   On elements that were parsed from a frame, the security list raises exactly when an
   empty vendor element comes before every one that announces WPA, or the first RSN
   element is empty, or there is neither and the body has no capability information.
   */
  lemma SecurityRaisesExactlyWhen(list: seq<Value>, privacy: Option<bool>)
    requires forall v :: v in list ==> RaisesWhenEmpty(v)
    ensures var vendors, rsn := WithId(list, VENDOR_ID), WithId(list, RSN_ID);
            Classify(list, privacy) == None
            <==> || (exists i: nat :: i < |vendors| && EmptyBeforeWpa(vendors, i))
                 || (rsn != [] && IsEmpty(rsn[0]))
                 || (rsn == [] && !SomeMatches(vendors) && privacy == None)
  {
    var vendors, rsn := WithId(list, VENDOR_ID), WithId(list, RSN_ID);
    VendorsRaise(list);
    if AnyWpa(vendors).Some? {
      ScanFindsMatches(vendors);
    }
    if rsn != [] {
      assert rsn[0] in rsn;
      WithIdMember(list, RSN_ID, rsn[0]);
    }
  }

  predicate EmptyBeforeWpa(vendors: seq<Value>, i: nat)
    requires i < |vendors|
  {
    IsEmpty(vendors[i]) && forall j :: 0 <= j < i ==> AnnouncesWpa(vendors[j]) == Some(false)
  }

  lemma VendorsRaise(list: seq<Value>)
    requires forall v :: v in list ==> RaisesWhenEmpty(v)
    ensures var vendors := WithId(list, VENDOR_ID);
            AnyWpa(vendors) == None <==> exists i: nat :: i < |vendors| && EmptyBeforeWpa(vendors, i)
  {
    var vendors := WithId(list, VENDOR_ID);
    ScanRaisesExactlyWhen(vendors);
    forall i: nat | i < |vendors|
      ensures EmptyBeforeWpa(vendors, i) <==> StopsAt(vendors, i)
    {
      assert vendors[i] in vendors;
      WithIdMember(list, VENDOR_ID, vendors[i]);
    }
  }
}
