/** An information element parses the same wherever it stands, so a list of them can be judged by its bytes alone. */
module WifiLocal {
  import opened Common
  import opened Construct
  import opened ConstructLaws
  import opened ConstructLocal
  import opened ConstructTail
  import opened FieldNames
  import opened WifiGrammar
  import opened WifiTails
  import opened WifiElements
  import opened WifiRsnLayout

  // ---- No reference leaves the element ------------------------------------------------------------

  lemma TwoFieldsLocal(f: FieldList, d: nat)
    requires f.Field? && f.rest.Field? && Local(f.con, d) && Local(f.rest.con, d) && LocalFields(f.rest.rest, d)
    ensures LocalFields(f, d)
  {
    assert LocalFields(f.rest, d);
  }

  lemma ThreeCasesLocal(c: Cases, d: nat)
    requires c.Case? && c.rest.Case? && c.rest.rest.Case?
    requires Local(c.con, d) && Local(c.rest.con, d) && Local(c.rest.rest.con, d) && LocalCases(c.rest.rest.rest, d)
    ensures LocalCases(c, d)
  {
    assert LocalCases(c.rest.rest, d);
    assert LocalCases(c.rest, d);
  }

  lemma RsnExpressionsAreNear()
    ensures Near(PAIRWISE_BYTES, 2) && Near(SUITE_BYTES, 2) && Near(LIST_BYTES, 2)
  {
  }

  lemma ReachesIsNear(base: int, lists: Expr)
    requires Near(lists, 2)
    ensures Near(Reaches(base, lists), 2)
  {
    assert Near(LENGTH, 2) && Near(Plus(Lit(base), lists), 2);
  }

  lemma CountedIsLocal(f: FieldList, base: int, lists: Expr, item: Con)
    requires IsCounted(f, base, lists, item) && Near(lists, 2) && Local(item, 2) && LocalFields(f.rest.rest, 2)
    ensures LocalFields(f, 2)
  {
    ReachesIsNear(base, lists);
    TwoFieldsLocal(f, 2);
  }

  lemma OptionalIsLocal(f: FieldList, base: int, lists: Expr, con: Con)
    requires IsOptional(f, base, lists, con) && Near(lists, 2) && Local(con, 2) && LocalFields(f.rest, 2)
    ensures LocalFields(f, 2)
  {
    ReachesIsNear(base, lists);
  }

  lemma RsnLeavesAreLocal()
    ensures Local(IntLittle(2), 2) && Local(IntBig(4), 2) && Local(FixedBytes(Lit(16)), 2) && Local(RSN_CAPABILITIES, 2)
    ensures LocalFields(End, 2) && Near(Lit(0), 2)
  {
  }

  lemma RsnListsAreLocal(f: FieldList)
    requires PairwiseTail(f) && f.rest.rest.rest.rest.con.thn == RSN_CAPABILITIES
    ensures LocalFields(f, 2)
  {
    hide *;
    RsnExpressionsAreNear();
    RsnLeavesAreLocal();
    PairwiseShape(f);
    var f2 := f.rest.rest;
    AkmShape(f2);
    var f4 := f2.rest.rest;
    CapabilityShape(f4);
    PmkidShape(f4.rest);
    GroupShape(f4.rest.rest.rest);
    OptionalIsLocal(f4.rest.rest.rest, 18, LIST_BYTES, IntBig(4));
    CountedIsLocal(f4.rest, 14, SUITE_BYTES, FixedBytes(Lit(16)));
    OptionalIsLocal(f4, 12, SUITE_BYTES, RSN_CAPABILITIES);
    CountedIsLocal(f2, 10, PAIRWISE_BYTES, IntBig(4));
    CountedIsLocal(f, 8, Lit(0), IntBig(4));
  }

  lemma RsnOpening()
    ensures RSN_FIELDS.Field? && RSN_FIELDS.con == IntLittle(2) && RSN_FIELDS.rest.Field? && RSN_FIELDS.rest.con == IntBig(4)
  {
  }

  lemma RsnIsLocal()
    ensures LocalFields(RSN_FIELDS, 2)
  {
    hide *;
    RsnShape();
    RsnOpening();
    RsnLeavesAreLocal();
    RsnListsAreLocal(RSN_FIELDS.rest.rest);
    TwoFieldsLocal(RSN_FIELDS, 2);
  }

  lemma VendorIsLocal()
    ensures Local(VENDOR_ELEMENT, 1)
  {
    assert Local(MICROSOFT_CONTENT, 2);
    assert LocalFields(VENDOR_ELEMENT.fields.rest, 2);
  }

  lemma CountryIsLocal()
    ensures Local(COUNTRY_ELEMENT, 1)
  {
    assert Local(COUNTRY_TRIPLET, 2);
    assert LocalFields(COUNTRY_ELEMENT.fields.rest, 2);
  }

  lemma NumbersAreLocal()
    ensures Local(FH_ELEMENT, 1) && Local(CF_ELEMENT, 1) && Local(BSS_LOAD_ELEMENT, 1)
  {
    TwoFieldsLocal(FH_ELEMENT.fields.rest.rest, 2);
    TwoFieldsLocal(FH_ELEMENT.fields, 2);
    TwoFieldsLocal(CF_ELEMENT.fields.rest.rest, 2);
    TwoFieldsLocal(CF_ELEMENT.fields, 2);
    TwoFieldsLocal(BSS_LOAD_ELEMENT.fields, 2);
  }

  lemma SingleFieldsAreLocal()
    ensures Local(SSID_ELEMENT, 1) && Local(RATES_ELEMENT, 1) && Local(DS_ELEMENT, 1) && Local(IBSS_ELEMENT, 1)
    ensures Local(REQUEST_ELEMENT, 1) && Local(RSNI_ELEMENT, 1) && Local(FixedBytes(This(Len)), 1)
  {
  }

  lemma RsnExtensionIsLocal()
    ensures Local(RSN_EXTENSION_ELEMENT, 1)
  {
    TwoFieldsLocal(RSN_EXTENSION_ELEMENT.fields.con.fields, 3);
  }

  lemma RsnStructIsLocal()
    ensures Local(Struct(RSN_FIELDS), 1)
  {
    RsnIsLocal();
  }

  lemma CasesAreLocal()
    ensures LocalCases(ELEMENT_CASES, 1)
  {
    hide Local, LocalFields, Near;
    var c2 := ELEMENT_CASES.rest.rest;
    var c5 := c2.rest.rest.rest;
    var c8 := c5.rest.rest.rest;
    var c11 := c8.rest.rest.rest;
    SingleFieldsAreLocal();
    NumbersAreLocal();
    CountryIsLocal();
    RsnStructIsLocal();
    RsnExtensionIsLocal();
    VendorIsLocal();
    ThreeCasesLocal(c11, 1);
    ThreeCasesLocal(c8, 1);
    ThreeCasesLocal(c5, 1);
    ThreeCasesLocal(c2, 1);
  }

  lemma ContentIsLocal(cases: Cases)
    requires LocalCases(cases, 1)
    ensures Local(If(AtLeast(This(Len), Lit(1)), IfThenElse(Equal(This(Id), Lit(EXTENSION_ID)), FixedBytes(Plus(This(Len), Lit(-1))),
                                                            Switch(This(Id), cases))), 1)
  {
  }

  lemma HeadIsLocal()
    ensures Local(BYTE, 1) && Local(If(Equal(This(Id), Lit(EXTENSION_ID)), BYTE), 1) && LocalFields(End, 1)
  {
  }

  lemma ElementIsLocal()
    ensures Local(INFORMATION_ELEMENT, 0)
  {
    hide LocalCases, Near;
    CasesAreLocal();
    ContentIsLocal(ELEMENT_CASES);
    HeadIsLocal();
    var f := INFORMATION_ELEMENT.fields;
    TwoFieldsLocal(f.rest.rest, 1);
    TwoFieldsLocal(f, 1);
  }

  // ---- Lists of elements --------------------------------------------------------------------------

  /** An element parses the same wherever it stands. */
  lemma ElementAnywhere(cs: Codecs, ctx: Context, input: bytes)
    ensures Parse(cs, INFORMATION_ELEMENT, ctx, input) == Parse(cs, INFORMATION_ELEMENT, [], input)
  {
    hide Parse, Local;
    ElementIsLocal();
    ParseIsLocal(cs, INFORMATION_ELEMENT, [], ctx, [], input);
    assert [] + ctx == ctx;
  }

  /** These bytes are information elements one after the other, to the last byte. */
  ghost predicate Elementwise(cs: Codecs, at: bytes) {
    exists items: seq<Value>, starts: seq<nat> :: ElementsAt(cs, at, items, starts)
  }

  ghost predicate ElementsAt(cs: Codecs, at: bytes, items: seq<Value>, starts: seq<nat>) {
    Tiles(Reads(cs, INFORMATION_ELEMENT, []), at, items, starts) && starts[0] == 0 && starts[|items|] == |at|
  }

  lemma TilesAnywhere(cs: Codecs, a: Context, b: Context, at: bytes, items: seq<Value>, starts: seq<nat>)
    requires Tiles(Reads(cs, INFORMATION_ELEMENT, a), at, items, starts)
    ensures Tiles(Reads(cs, INFORMATION_ELEMENT, b), at, items, starts)
  {
    hide Parse;
    forall i | 0 <= i < |items|
      ensures TileAt(Reads(cs, INFORMATION_ELEMENT, b), at, items, starts, i)
    {
      assert TileAt(Reads(cs, INFORMATION_ELEMENT, a), at, items, starts, i);
      ElementAnywhere(cs, a, at[starts[i]..]);
      ElementAnywhere(cs, b, at[starts[i]..]);
    }
  }

  /** A list of elements leaves nothing over exactly when the bytes are elements throughout. */
  lemma NothingLeftExactlyWhen(cs: Codecs, ctx: Context, at: bytes)
    requires Lawful(cs)
    ensures Parse(cs, ELEMENTS, ctx, at).Some?
    ensures Parse(cs, ELEMENTS, ctx, at).value.rest == [] <==> Elementwise(cs, at)
  {
    var starts := ElementsTilePrefix(cs, ctx, at);
    var p := Parse(cs, ELEMENTS, ctx, at).value;
    if p.rest == [] {
      TilesAnywhere(cs, ctx, [], at, p.value.items, starts);
      assert ElementsAt(cs, at, p.value.items, starts);
    }
    if Elementwise(cs, at) {
      var items: seq<Value>, points: seq<nat> :| ElementsAt(cs, at, items, points);
      TilesAnywhere(cs, [], ctx, at, items, points);
      ShortElement(cs, ctx, at[points[|items|]..]);
      TilingIsGreedy(cs, INFORMATION_ELEMENT, ctx, at, items, points);
    }
  }
}
