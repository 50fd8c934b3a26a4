/** Elements whose content never parses, and what they do to the list they stand in. */
module WifiStuck {
  import opened Common
  import opened Construct
  import opened ConstructNames
  import opened ConstructTail
  import opened FieldNames
  import opened WifiGrammar
  import opened WifiTails
  import opened WifiElements

  const REQUEST_ID := 10
  const RSN_EXTENSION_ID := 244

  predicate Stuck(id: int) {
    id == REQUEST_ID || id == RSN_EXTENSION_ID
  }

  lemma RequestCase()
    ensures CaseOf(ELEMENT_CASES, REQUEST_ID) == REQUEST_ELEMENT
  {
    var c3 := ELEMENT_CASES.rest.rest.rest;
    var c6 := c3.rest.rest.rest;
    assert CaseOf(c6, REQUEST_ID) == REQUEST_ELEMENT;
    assert CaseOf(c3, REQUEST_ID) == CaseOf(c6, REQUEST_ID);
  }

  lemma RsnExtensionCase()
    ensures CaseOf(ELEMENT_CASES, RSN_EXTENSION_ID) == RSN_EXTENSION_ELEMENT
  {
    var c3 := ELEMENT_CASES.rest.rest.rest;
    var c6 := c3.rest.rest.rest;
    var c9 := c6.rest.rest.rest;
    var c12 := c9.rest.rest.rest;
    assert CaseOf(c12, RSN_EXTENSION_ID) == RSN_EXTENSION_ELEMENT;
    assert CaseOf(c9, RSN_EXTENSION_ID) == CaseOf(c12, RSN_EXTENSION_ID);
    assert CaseOf(c6, RSN_EXTENSION_ID) == CaseOf(c9, RSN_EXTENSION_ID);
    assert CaseOf(c3, RSN_EXTENSION_ID) == CaseOf(c6, RSN_EXTENSION_ID);
  }

  /** The request list asks its own struct for the length, and that struct is still empty. */
  lemma RequestNeverParses(cs: Codecs, ctx: Context, at: bytes)
    ensures Parse(cs, REQUEST_ELEMENT, ctx, at) == None
  {
    var f := REQUEST_ELEMENT.fields;
    assert ([map[]] + ctx)[0] == map[];
    assert Eval([map[]] + ctx, This(Len)) == None;
    StopsThere(cs, f, ctx, map[], at);
  }

  lemma NoLengthAround(scope: Scope, ctx: Context)
    ensures Eval([scope] + ([map[]] + ctx), Plus(LENGTH, Lit(-1))) == None
  {
    var all := [scope] + ([map[]] + ctx);
    assert all[1] == map[];
    assert Eval(all, LENGTH) == None;
  }

  /** The tail of the extension asks the struct around its bits, which is still empty. */
  lemma RsnExtensionNeverParses(cs: Codecs, ctx: Context, at: bytes)
    ensures Parse(cs, RSN_EXTENSION_ELEMENT, ctx, at) == None
  {
    var outer := RSN_EXTENSION_ELEMENT.fields;
    var inner, around := outer.con.fields, [map[]] + ctx;
    if at == [] {
      StopsThere(cs, inner, around, map[], at);
    } else {
      ByteParses(cs, [map[]] + around, at);
      var s1: Scope := map[ExtensionBits := Num(at[0])];
      NoLengthAround(s1, ctx);
      StopsThere(cs, inner.rest, around, s1, at[1..]);
      assert ParseFields(cs, inner, around, map[], at) == None;
    }
    StopsThere(cs, outer, ctx, map[], at);
  }

  /** A request or RSN extension element parses exactly when it is empty. */
  lemma StuckElementParsesExactlyWhen(cs: Codecs, ctx: Context, input: bytes)
    requires input != [] && Stuck(input[0])
    ensures Parse(cs, INFORMATION_ELEMENT, ctx, input).Some? <==> |input| >= 2 && input[1] == 0
  {
    if |input| < 2 {
      ShortElement(cs, ctx, input);
    } else {
      ElementFollows(cs, ctx, input);
      RequestCase();
      RsnExtensionCase();
      var inner := [ElementHead(input[0], input[1])] + ctx;
      RequestNeverParses(cs, inner, input[2..]);
      RsnExtensionNeverParses(cs, inner, input[2..]);
    }
  }

  /**
   Wherever whole elements lead up to a request or RSN extension element that is not empty, the
   list is those elements, and everything from it on is left over.
   */
  lemma StuckElementEndsTheList(cs: Codecs, ctx: Context, input: bytes, items: seq<Value>, starts: seq<nat>)
    requires Tiles(Reads(cs, INFORMATION_ELEMENT, ctx), input, items, starts) && starts[0] == 0
    requires var at := input[starts[|items|]..]; at != [] && Stuck(at[0]) && (|at| >= 2 ==> at[1] != 0)
    ensures var p := Parse(cs, ELEMENTS, ctx, input);
            p.Some? && p.value.value == Listing(items) && p.value.rest == input[starts[|items|]..]
  {
    StuckElementParsesExactlyWhen(cs, ctx, input[starts[|items|]..]);
    TilingIsGreedy(cs, INFORMATION_ELEMENT, ctx, input, items, starts);
  }
}
