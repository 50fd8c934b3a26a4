/** How many bytes an information element takes, and when that is what its length says. */
module WifiSizes {
  import opened Common
  import opened Construct
  import opened ConstructLaws
  import opened ConstructNames
  import opened ConstructTail
  import opened FieldNames
  import opened WifiGrammar
  import opened WifiLaws
  import opened WifiTails
  import opened WifiElements
  import opened WifiRsnLayout
  import opened WifiRsn
  import opened WifiContents

  // ---- Sizes ----------------------------------------------------------------------------------

  /** The bytes the content of an element that is no extension takes, if it parses. */
  function ContentSize(id: int, length: nat, at: bytes): nat {
    if length == 0 then 0
    else if id == 2 || id == 11 then 5
    else if id == 3 || id == 65 then 1
    else if id == 4 then 6
    else if id == 6 then 2
    else if id == 7 then 3 * (length / 3)
    else if id == RSN_ID then LayoutOf(at, length).end
    else length
  }

  /** What a parse took: the first `n` bytes. */
  predicate Took(p: Option<Parsed>, at: bytes, n: nat) {
    p.Some? ==> n <= |at| && p.value.rest == at[n..]
  }

  lemma RsnTakes(cs: Codecs, inner: Context, length: nat, at: bytes)
    requires HasLength(inner, length)
    ensures Took(Parse(cs, Struct(RSN_FIELDS), inner, at), at, LayoutOf(at, length).end)
  {
    hide Parse, ParseFields, LayoutOf, RsnFacts, HasLength, RSN_FIELDS;
    var w := RsnParses(cs, inner, at, length);
    StructIs(cs, RSN_FIELDS, inner, at);
  }

  lemma SizeOfContent(cs: Codecs, id: int, length: nat, at: bytes)
    requires !Special(id)
    ensures Took(ContentOfBytes(cs, id, length, at), at, ContentSize(id, length, at))
  {
    assert at[0..] == at;
  }

  lemma ContentTakes(cs: Codecs, ctx: Context, id: int, length: nat, at: bytes)
    requires id != EXTENSION_ID
    ensures Took(InfoOf(cs, ctx, id, length, at), at, ContentSize(id, length, at))
  {
    hide Parse, CaseOf, LayoutOf, ElementHead, ContentOfBytes;
    if id != RSN_ID {
      ContentIs(cs, ctx, id, length, at);
      SizeOfContent(cs, id, length, at);
    } else if length == 0 {
      assert at[0..] == at;
    } else {
      var inner := HeadHasLength(id, length, ctx);
      HighElementCases(id);
      RsnTakes(cs, inner, length, at);
    }
  }

  // ---- Elements and their length ------------------------------------------------------------------------

  /** The bytes an element takes, if it parses: an extension reads its second id even when it is empty. */
  function ElementSize(input: bytes): nat
    requires |input| >= 2
  {
    if input[0] == EXTENSION_ID then (if input[1] == 0 then 3 else 2 + input[1])
    else 2 + ContentSize(input[0], input[1], input[2..])
  }

  /** The length byte of an element fits what its id makes of it. */
  predicate LengthFits(id: int, length: nat, at: bytes) {
    if length == 0 then id != EXTENSION_ID
    else if id == 2 || id == 11 then length == 5
    else if id == 3 || id == 65 then length == 1
    else if id == 4 then length == 6
    else if id == 6 then length == 2
    else if id == 7 then length % 3 == 0
    else if id == RSN_ID then LayoutOf(at, length).end == length
    else true
  }

  lemma SizeIsLengthExactlyWhen(input: bytes)
    requires |input| >= 2
    ensures ElementSize(input) == 2 + (input[1] as int) <==> LengthFits(input[0], input[1], input[2..])
  {
    hide LayoutOf;
  }

  lemma PlainElementTakes(cs: Codecs, ctx: Context, input: bytes)
    requires |input| >= 2 && input[0] != EXTENSION_ID
    ensures Took(Parse(cs, INFORMATION_ELEMENT, ctx, input), input, ElementSize(input))
  {
    hide Parse, InfoOf, ContentSize;
    var id: int, length: int := input[0], input[1];
    ElementFollows(cs, ctx, input);
    ContentTakes(cs, ctx, id, length, input[2..]);
    if InfoOf(cs, ctx, id, length, input[2..]).Some? {
      TailOfTail(input, ContentSize(id, length, input[2..]));
    }
  }

  lemma ExtensionInfoIs(cs: Codecs, ctx: Context, scope: Scope, length: nat, at: bytes)
    requires Says(scope, Id, EXTENSION_ID) && Says(scope, Len, length)
    ensures Parse(cs, ELEMENT_INFO, [scope] + ctx, at)
         == if length == 0 then Some(Parsed(Nothing, at, []))
            else if length - 1 > |at| then None else Some(Parsed(Data(at[..length - 1]), at[length - 1..], []))
  {
    hide Parse;
    var inner := [scope] + ctx;
    EvalEqual(scope, ctx, Len, length, 1);
    EvalEqual(scope, ctx, Id, EXTENSION_ID, EXTENSION_ID);
    EvalThis(scope, ctx, Len, length);
    assert Eval(inner, Plus(This(Len), Lit(-1))) == Some(length - 1);
    var body := FixedBytes(Plus(This(Len), Lit(-1)));
    if length == 0 {
      EmptyInfo(cs, ctx, scope, at, ELEMENT_INFO.thn);
    } else {
      Chooses(cs, AtLeast(This(Len), Lit(1)), ELEMENT_INFO.thn, Pass, inner, at, true);
      Chooses(cs, Equal(This(Id), Lit(EXTENSION_ID)), body, Switch(This(Id), ELEMENT_CASES), inner, at, true);
      BytesParse(cs, Plus(This(Len), Lit(-1)), inner, length - 1, at);
    }
  }

  lemma SecondIdParses(cs: Codecs, ctx: Context, scope: Scope, at: bytes)
    requires Says(scope, Id, EXTENSION_ID)
    ensures Parse(cs, If(Equal(This(Id), Lit(EXTENSION_ID)), BYTE), [scope] + ctx, at)
         == if at == [] then None else Some(Parsed(Num(at[0]), at[1..], []))
  {
    EvalEqual(scope, ctx, Id, EXTENSION_ID, EXTENSION_ID);
    Chooses(cs, Equal(This(Id), Lit(EXTENSION_ID)), BYTE, Pass, [scope] + ctx, at, true);
    if at != [] {
      ByteParses(cs, [scope] + ctx, at);
    }
  }

  /** The record of an extension element before its content. */
  function ExtensionHead(length: int, id: int): Scope {
    map[Id := Num(EXTENSION_ID), Len := Num(length), IdExtension := Num(id)]
  }

  lemma ExtensionHeadParses(cs: Codecs, ctx: Context, input: bytes)
    requires |input| >= 2 && input[0] == EXTENSION_ID
    ensures var f := INFORMATION_ELEMENT.fields;
            ParseFields(cs, f, ctx, map[], input)
            == if |input| < 3 then None
               else ParseFields(cs, f.rest.rest.rest, ctx, ExtensionHead(input[1], input[2]), input[3..])
  {
    hide Parse, Unread, FieldNamesOf;
    var f := INFORMATION_ELEMENT.fields;
    ElementNames();
    ByteParses(cs, [map[]] + ctx, input);
    Onwards(cs, f, ctx, map[], input, Parsed(Num(input[0]), input[1..], []));
    var s1: Scope := map[Id := Num(input[0])];
    ByteParses(cs, [s1] + ctx, input[1..]);
    Onwards(cs, f.rest, ctx, s1, input[1..], Parsed(Num(input[1]), input[2..], []));
    var s2 := s1[Len := Num(input[1])];
    HeadSteps(input[0], input[1]);
    SecondIdParses(cs, ctx, s2, input[2..]);
    if |input| < 3 {
      StopsThere(cs, f.rest.rest, ctx, s2, input[2..]);
    } else {
      Onwards(cs, f.rest.rest, ctx, s2, input[2..], Parsed(Num(input[2]), input[3..], []));
      assert s2[IdExtension := Num(input[2])] == ExtensionHead(input[1], input[2]);
    }
  }

  /** An extension element, byte by byte: it has a second id even when its length is 0, and bytes up to its length behind it. */
  function ExtensionOfBytes(input: bytes): Option<Parsed>
    requires |input| >= 2
  {
    var length: int := input[1];
    if |input| < 3 || 2 + length > |input| then None
    else
      var info := if length == 0 then Nothing else Data(input[3..2 + length]);
      Some(Parsed(Rec(map[Id := Num(255), Len := Num(length), IdExtension := Num(input[2]), Info := info]),
                  if length == 0 then input[3..] else input[2 + length..], []))
  }

  lemma ExtensionElementIs(cs: Codecs, ctx: Context, input: bytes)
    requires |input| >= 2 && input[0] == 255
    ensures Parse(cs, INFORMATION_ELEMENT, ctx, input) == ExtensionOfBytes(input)
  {
    hide Parse, ParseFields;
    var f, length: int := INFORMATION_ELEMENT.fields, input[1];
    ExtensionHeadParses(cs, ctx, input);
    StructIs(cs, f, ctx, input);
    if |input| >= 3 {
      var scope := ExtensionHead(length, input[2]);
      ExtensionInfoIs(cs, ctx, scope, length, input[3..]);
      LastField(cs, f.rest.rest.rest, ctx, scope, input[3..]);
      if 0 < length <= |input| - 2 {
        assert input[3..][..length - 1] == input[3..2 + length];
        DropDrop(input, 3, length - 1);
      }
    }
  }

  lemma ExtensionElementTakes(cs: Codecs, ctx: Context, input: bytes)
    requires |input| >= 2 && input[0] == EXTENSION_ID
    ensures Took(Parse(cs, INFORMATION_ELEMENT, ctx, input), input, ElementSize(input))
  {
    hide Parse;
    ExtensionElementIs(cs, ctx, input);
  }

  /**
   An element takes exactly the bytes its length byte announces if and only if that length is the
   one its id has room for: five for FH parameters and BSS load, one for DS parameters and RSNI, six
   for CF parameters, two for IBSS parameters, a multiple of three for country information, its own
   layout for RSN, and anything but nothing for an extension; every other element keeps to it.
   */
  lemma ElementTakesItsLengthExactlyWhen(cs: Codecs, ctx: Context, input: bytes)
    requires Parse(cs, INFORMATION_ELEMENT, ctx, input).Some?
    ensures |input| >= 2
    ensures var taken := |input| - |Parse(cs, INFORMATION_ELEMENT, ctx, input).value.rest|;
            && taken == ElementSize(input)
            && (taken == 2 + (input[1] as int) <==> LengthFits(input[0], input[1], input[2..]))
  {
    hide Parse, ElementSize, LengthFits;
    if |input| < 2 {
      ShortElement(cs, ctx, input);
    } else if input[0] == EXTENSION_ID {
      ExtensionElementTakes(cs, ctx, input);
      SizeIsLengthExactlyWhen(input);
    } else {
      PlainElementTakes(cs, ctx, input);
      SizeIsLengthExactlyWhen(input);
    }
  }

  // ---- The list and its segmentation by lengths -----------------------------------------------------------

  /** A whole element by its length byte starts at `o`. */
  predicate HasWhole(at: bytes, o: nat) {
    o + 2 <= |at| && o + 2 + at[o + 1] as int <= |at|
  }

  /** Where elements start when the length bytes decide, and where they end. */
  function SegmentsFrom(at: bytes, o: nat): (r: seq<nat>)
    ensures r != [] && r[0] == o
    decreases |at| - o
  {
    if HasWhole(at, o) then [o] + SegmentsFrom(at, o + 2 + at[o + 1] as int) else [o]
  }

  function Segments(at: bytes): seq<nat> {
    SegmentsFrom(at, 0)
  }

  /** Each start is where the length byte of the one before leads, and no whole element follows the last. */
  ghost predicate LengthDriven(at: bytes, starts: seq<nat>) {
    && starts != [] && (forall i :: 0 <= i < |starts| - 1 ==> LeadsOn(at, starts, i))
    && !HasWhole(at, starts[|starts| - 1])
  }

  predicate LeadsOn(at: bytes, starts: seq<nat>, i: nat)
    requires i + 1 < |starts|
  {
    HasWhole(at, starts[i]) && starts[i + 1] == starts[i] + 2 + at[starts[i] + 1] as int
  }

  lemma {:induction false} SegmentsAreLengthDriven(at: bytes, o: nat)
    ensures LengthDriven(at, SegmentsFrom(at, o))
    decreases |at| - o
  {
    if HasWhole(at, o) {
      var rest := SegmentsFrom(at, o + 2 + at[o + 1] as int);
      SegmentsAreLengthDriven(at, o + 2 + at[o + 1] as int);
      var all := [o] + rest;
      forall i | 0 <= i < |all| - 1
        ensures LeadsOn(at, all, i)
      {
        assert i > 0 ==> LeadsOn(at, rest, i - 1);
      }
    }
  }

  lemma {:induction false} LengthDrivenAreSegments(at: bytes, starts: seq<nat>, k: nat)
    requires LengthDriven(at, starts) && k < |starts|
    ensures starts[k..] == SegmentsFrom(at, starts[k])
    decreases |starts| - k
  {
    if k < |starts| - 1 {
      assert LeadsOn(at, starts, k);
      LengthDrivenAreSegments(at, starts, k + 1);
      assert starts[k..] == [starts[k]] + starts[k + 1..];
    } else {
      assert starts[k..] == [starts[k]];
    }
  }

  lemma SegmentsExactly(at: bytes, starts: seq<nat>)
    requires starts != [] && starts[0] == 0
    ensures starts == Segments(at) <==> LengthDriven(at, starts)
  {
    SegmentsAreLengthDriven(at, 0);
    if LengthDriven(at, starts) {
      LengthDrivenAreSegments(at, starts, 0);
      assert starts[0..] == starts;
    }
  }

  /** The element that starts at `o` takes what its length byte says. */
  predicate FitsAt(at: bytes, o: nat)
    requires o + 2 <= |at|
  {
    LengthFits(at[o], at[o + 1], at[o + 2..])
  }

  lemma FitsInPlace(at: bytes, o: nat)
    requires o + 2 <= |at|
    ensures var here := at[o..];
            |here| >= 2 && here[0] == at[o] && here[1] == at[o + 1] && here[2..] == at[o + 2..]
  {
  }

  /** Each element of a tiling ends where its length byte says exactly when that length fits. */
  lemma TileLeadsOnExactlyWhen(cs: Codecs, ctx: Context, at: bytes, items: seq<Value>, starts: seq<nat>, i: nat)
    requires Tiles(Reads(cs, INFORMATION_ELEMENT, ctx), at, items, starts) && i < |items|
    ensures starts[i] + 2 <= |at| && (LeadsOn(at, starts, i) <==> FitsAt(at, starts[i]))
  {
    hide Parse, LengthFits, ElementSize;
    assert TileAt(Reads(cs, INFORMATION_ELEMENT, ctx), at, items, starts, i);
    var here := at[starts[i]..];
    ElementTakesItsLengthExactlyWhen(cs, ctx, here);
    FitsInPlace(at, starts[i]);
  }

  /**
   The list of elements is the segmentation of its bytes by their length bytes exactly when every
   element's length fits and no whole element by its length is left over.
   */
  lemma ListIsSegmentationExactlyWhen(cs: Codecs, ctx: Context, at: bytes) returns (starts: seq<nat>)
    requires Lawful(cs)
    ensures Parse(cs, ELEMENTS, ctx, at).Some? && Parse(cs, ELEMENTS, ctx, at).value.value.Listing?
    ensures var p := Parse(cs, ELEMENTS, ctx, at).value;
            && Tiles(Reads(cs, INFORMATION_ELEMENT, ctx), at, p.value.items, starts) && starts[0] == 0
            && p.rest == at[starts[|starts| - 1]..]
            && (forall i :: 0 <= i < |starts| - 1 ==> starts[i] + 2 <= |at|)
            && (starts == Segments(at)
                <==> && (forall i :: 0 <= i < |starts| - 1 ==> FitsAt(at, starts[i]))
                     && !HasWhole(at, starts[|starts| - 1]))
  {
    hide Parse, FitsAt, HasWhole, LeadsOn;
    starts := ElementsTilePrefix(cs, ctx, at);
    var items := Parse(cs, ELEMENTS, ctx, at).value.value.items;
    forall i | 0 <= i < |starts| - 1
      ensures starts[i] + 2 <= |at| && (LeadsOn(at, starts, i) <==> FitsAt(at, starts[i]))
    {
      TileLeadsOnExactlyWhen(cs, ctx, at, items, starts, i);
    }
    SegmentsExactly(at, starts);
  }
}
