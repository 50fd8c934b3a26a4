/** Frames that leave nothing over, and how information elements tile a frame. */
module WifiTails {
  import opened Common
  import opened Construct
  import opened ConstructLaws
  import opened ConstructTail
  import opened WifiGrammar
  import opened WifiLaws
  import opened WifiFrames
  import opened WifiAccept

  // ---- Greedy tails ------------------------------------------------------------------------

  /** GreedyBytes, or a struct that ends in it. */
  predicate EndsGreedy(g: Con) {
    g.GreedyBytes? || (g.Struct? && LastGreedy(g.fields))
  }

  predicate LastGreedy(fields: FieldList) {
    fields.Field? && if fields.rest.End? then fields.con.GreedyBytes? else LastGreedy(fields.rest)
  }

  lemma {:induction false} LastGreedyTakesAll(cs: Codecs, fields: FieldList, ctx: Context, scope: Scope, input: bytes)
    requires LastGreedy(fields) && ParseFields(cs, fields, ctx, scope, input).Some?
    ensures ParseFields(cs, fields, ctx, scope, input).value.rest == []
    decreases fields
  {
    if fields.rest.Field? {
      var p := Parse(cs, fields.con, [scope] + ctx, input).value;
      LastGreedyTakesAll(cs, fields.rest, ctx, scope[fields.name := p.value], p.rest);
    }
  }

  lemma EndsGreedyTakesAll(cs: Codecs, g: Con, ctx: Context, input: bytes)
    requires EndsGreedy(g) && Parse(cs, g, ctx, input).Some?
    ensures Parse(cs, g, ctx, input).value.rest == []
  {
    if g.Struct? {
      LastGreedyTakesAll(cs, g.fields, ctx, map[], input);
    }
  }

  function CaseOf(cases: Cases, key: int): Con {
    if cases.Otherwise? || cases.key == key then cases.con else CaseOf(cases.rest, key)
  }

  lemma {:induction false} ParseCaseIs(cs: Codecs, cases: Cases, key: int, ctx: Context, input: bytes)
    ensures ParseCase(cs, cases, key, ctx, input) == Parse(cs, CaseOf(cases, key), ctx, input)
    decreases cases
  {
    if cases.Case? && cases.key != key {
      ParseCaseIs(cs, cases.rest, key, ctx, input);
    }
  }

  lemma TwoSkipped(cases: Cases, key: int)
    requires cases.Case? && cases.rest.Case? && cases.key != key && cases.rest.key != key
    ensures CaseOf(cases, key) == CaseOf(cases.rest.rest, key)
  {
    assert CaseOf(cases.rest, key) == CaseOf(cases.rest.rest, key);
  }

  const GREEDY_MANAGEMENT: set<int> := {6, 7, 8, 9, 10, 11, 12, 13, 14, 15}
  const GREEDY_DATA: set<int> := {0, 1, 2, 3, 8, 9, 10, 11, 13}

  /**
   Frame kinds whose grammar ends in GreedyBytes: control and extension frames,
   management frames from beacon on and the reserved ones, data frames with a body.
   */
  predicate GreedyKind(frameType: int, subtype: int) {
    if frameType == MANAGEMENT then subtype in GREEDY_MANAGEMENT
    else if frameType == DATA then subtype in GREEDY_DATA
    else true
  }

  /** Every case with one of these keys, and the default, ends in GreedyBytes. */
  predicate EndGreedily(cases: Cases, keys: set<int>) {
    if cases.Otherwise? then EndsGreedy(cases.con)
    else (cases.key in keys ==> EndsGreedy(cases.con)) && EndGreedily(cases.rest, keys)
  }

  lemma {:induction false} CaseEndsGreedy(cases: Cases, keys: set<int>, key: int)
    requires EndGreedily(cases, keys) && key in keys
    ensures EndsGreedy(CaseOf(cases, key))
    decreases cases
  {
    if cases.Case? && cases.key != key {
      CaseEndsGreedy(cases.rest, keys, key);
    }
  }

  lemma TwoEnd(cases: Cases, keys: set<int>)
    requires cases.Case? && cases.rest.Case? && EndGreedily(cases.rest.rest, keys)
    requires (cases.key in keys ==> EndsGreedy(cases.con)) && (cases.rest.key in keys ==> EndsGreedy(cases.rest.con))
    ensures EndGreedily(cases, keys)
  {
    assert EndGreedily(cases.rest, keys);
  }

  lemma TwoFieldsOn(f: FieldList)
    requires f.Field? && f.rest.Field? && LastGreedy(f.rest.rest)
    ensures LastGreedy(f)
  {
    assert LastGreedy(f.rest);
  }

  lemma GreedyStructs()
    ensures EndsGreedy(BEACON) && EndsGreedy(FAREWELL) && EndsGreedy(AUTHENTICATION) && EndsGreedy(ACTION)
    ensures EndsGreedy(DATA_WITH_BODY) && EndsGreedy(GreedyBytes)
  {
    TwoFieldsOn(BEACON.fields.rest.rest);
    TwoFieldsOn(BEACON.fields);
    TwoFieldsOn(AUTHENTICATION.fields);
  }

  lemma ManagementEndsGreedily()
    ensures EndGreedily(MANAGEMENT_CASES, GREEDY_MANAGEMENT)
  {
    hide EndsGreedy;
    GreedyStructs();
    var c2 := MANAGEMENT_CASES.rest.rest;
    var c4 := c2.rest.rest;
    var c6 := c4.rest.rest;
    var c8 := c6.rest.rest;
    var c10 := c8.rest.rest;
    TwoEnd(c10, GREEDY_MANAGEMENT);
    TwoEnd(c8, GREEDY_MANAGEMENT);
    TwoEnd(c6, GREEDY_MANAGEMENT);
    TwoEnd(c4, GREEDY_MANAGEMENT);
    TwoEnd(c2, GREEDY_MANAGEMENT);
    TwoEnd(MANAGEMENT_CASES, GREEDY_MANAGEMENT);
  }

  lemma DataEndsGreedily()
    ensures EndGreedily(DATA_CASES, GREEDY_DATA)
  {
    hide EndsGreedy;
    GreedyStructs();
    var c2 := DATA_CASES.rest.rest;
    var c4 := c2.rest.rest;
    var c6 := c4.rest.rest;
    var c8 := c6.rest.rest;
    var c10 := c8.rest.rest;
    var c12 := c10.rest.rest;
    var c14 := c12.rest.rest;
    TwoEnd(c14, GREEDY_DATA);
    TwoEnd(c12, GREEDY_DATA);
    TwoEnd(c10, GREEDY_DATA);
    TwoEnd(c8, GREEDY_DATA);
    TwoEnd(c6, GREEDY_DATA);
    TwoEnd(c4, GREEDY_DATA);
    TwoEnd(c2, GREEDY_DATA);
    TwoEnd(DATA_CASES, GREEDY_DATA);
  }

  lemma CaseOfType()
    ensures CaseOf(TYPE_CASES, MANAGEMENT) == Switch(FRAME_SUBTYPE, MANAGEMENT_CASES)
    ensures CaseOf(TYPE_CASES, DATA) == Switch(FRAME_SUBTYPE, DATA_CASES)
  {
  }

  lemma CaseOfOtherTypes(frameType: int)
    requires frameType > DATA
    ensures CaseOf(TYPE_CASES, frameType) == GreedyBytes
  {
    assert CaseOf(TYPE_CASES.rest.rest, frameType) == GreedyBytes;
  }

  lemma SubtypeSwitch(cs: Codecs, cases: Cases, scope: Scope, input: bytes, frameType: int, subtype: int)
    requires Carries(scope, frameType, subtype)
    ensures Parse(cs, Switch(FRAME_SUBTYPE, cases), [scope], input) == Parse(cs, CaseOf(cases, subtype), [scope], input)
  {
    TypeInScope(scope, frameType, subtype);
    Switches(cs, FRAME_SUBTYPE, cases, [scope], input, subtype);
    ParseCaseIs(cs, cases, subtype, [scope], input);
  }

  /** The body of a management or data frame is its subtype's case. */
  lemma BodyCase(cs: Codecs, scope: Scope, input: bytes, frameType: int, subtype: int)
    requires Carries(scope, frameType, subtype)
    ensures frameType == MANAGEMENT ==>
              ParseCase(cs, TYPE_CASES, frameType, [scope], input)
              == Parse(cs, CaseOf(MANAGEMENT_CASES, subtype), [scope], input)
    ensures frameType == DATA ==>
              ParseCase(cs, TYPE_CASES, frameType, [scope], input) == Parse(cs, CaseOf(DATA_CASES, subtype), [scope], input)
    ensures frameType > DATA ==> ParseCase(cs, TYPE_CASES, frameType, [scope], input) == Parse(cs, GreedyBytes, [scope], input)
  {
    ParseCaseIs(cs, TYPE_CASES, frameType, [scope], input);
    if frameType > DATA {
      CaseOfOtherTypes(frameType);
    } else {
      CaseOfType();
      SubtypeSwitch(cs, MANAGEMENT_CASES, scope, input, frameType, subtype);
      SubtypeSwitch(cs, DATA_CASES, scope, input, frameType, subtype);
    }
  }

  /** Frames of a greedy kind are parsed to their last byte. */
  lemma GreedyKindsLeaveNothing(cs: Codecs, input: bytes)
    requires ParseFrame(cs, input).Some? && |input| >= 2 && GreedyKind(TypeBits(input), SubtypeBits(input))
    ensures ParseFrame(cs, input).value.rest == []
  {
    var t, u := TypeBits(input), SubtypeBits(input);
    if t == CONTROL {
      ControlFrameTakesAll(cs, input);
    } else {
      var control, sequence, body := FrameBodyOf(cs, input);
      var scope := Heading(control, sequence, input);
      BodyCase(cs, scope, input[24..], t, u);
      if t == MANAGEMENT {
        ManagementEndsGreedily();
        CaseEndsGreedy(MANAGEMENT_CASES, GREEDY_MANAGEMENT, u);
        EndsGreedyTakesAll(cs, CaseOf(MANAGEMENT_CASES, u), [scope], input[24..]);
      } else if t == DATA {
        DataEndsGreedily();
        CaseEndsGreedy(DATA_CASES, GREEDY_DATA, u);
        EndsGreedyTakesAll(cs, CaseOf(DATA_CASES, u), [scope], input[24..]);
      }
    }
  }

  /** For these kinds the rebuild check passes exactly when every text field rebuilds. */
  lemma GreedyKindsRebuildExactly(cs: Codecs, input: bytes)
    requires Lawful(cs) && ParseFrame(cs, input).Some? && |input| >= 2
    requires GreedyKind(TypeBits(input), SubtypeBits(input))
    ensures BuildFrame(cs, ParseFrame(cs, input).value.value) == Some(input)
            <==> AllRebuild(cs, ParseFrame(cs, input).value.texts)
  {
    GreedyKindsLeaveNothing(cs, input);
    RebuildCheckPassesExactlyWhen(cs, input);
  }

  // ---- Information elements ---------------------------------------------------------------------

  /** A struct that starts with an id and a length byte takes those two at least. */
  predicate HasHead(item: Con) {
    && item.Struct? && item.fields.Field? && item.fields.con == BYTE
    && item.fields.rest.Field? && item.fields.rest.con == BYTE
  }

  lemma HeadedTakesTwo(cs: Codecs, item: Con, ctx: Context, input: bytes)
    requires Lawful(cs) && HasHead(item) && Parse(cs, item, ctx, input).Some?
    ensures |Parse(cs, item, ctx, input).value.rest| + 2 <= |input|
  {
    var f := item.fields;
    var p0, q0 := FieldStep(cs, f.name, BYTE, f.rest, ctx, map[], input);
    var s1: Scope := map[f.name := p0.value];
    var p1, q1 := FieldStep(cs, f.rest.name, BYTE, f.rest.rest, ctx, s1, p0.rest);
    FieldsRoundTrip(cs, f.rest.rest, ctx, ctx, s1[f.rest.name := p1.value], q1.scope, p1.rest);
  }

  /** A repeat over such structs never runs for ever. */
  lemma {:induction false} HeadedAlwaysParse(cs: Codecs, item: Con, ctx: Context, input: bytes)
    requires Lawful(cs) && HasHead(item)
    ensures ParseGreedy(cs, item, ctx, input).Some?
    decreases |input|
  {
    if Parse(cs, item, ctx, input).Some? {
      HeadedTakesTwo(cs, item, ctx, input);
      HeadedAlwaysParse(cs, item, ctx, Parse(cs, item, ctx, input).value.rest);
    }
  }

  lemma ElementsHaveHeads()
    ensures HasHead(INFORMATION_ELEMENT) && HasHead(PLAIN_VENDOR_ELEMENT)
  {
  }

  /** An element takes its id and length bytes at least. */
  lemma ElementTakesTwo(cs: Codecs, ctx: Context, input: bytes)
    requires Lawful(cs) && Parse(cs, INFORMATION_ELEMENT, ctx, input).Some?
    ensures |Parse(cs, INFORMATION_ELEMENT, ctx, input).value.rest| + 2 <= |input|
  {
    hide Parse;
    ElementsHaveHeads();
    HeadedTakesTwo(cs, INFORMATION_ELEMENT, ctx, input);
  }

  /** The repeat over elements never runs for ever. */
  lemma ElementsAlwaysParse(cs: Codecs, ctx: Context, input: bytes)
    requires Lawful(cs)
    ensures ParseGreedy(cs, INFORMATION_ELEMENT, ctx, input).Some?
  {
    hide Parse, ParseGreedy;
    ElementsHaveHeads();
    HeadedAlwaysParse(cs, INFORMATION_ELEMENT, ctx, input);
  }

  /**
   Information elements tile a prefix of what follows the fixed fields, each taking
   at least two bytes, and the leftover does not begin with one more.
   */
  lemma ElementsTilePrefix(cs: Codecs, ctx: Context, input: bytes) returns (starts: seq<nat>)
    requires Lawful(cs)
    ensures Parse(cs, ELEMENTS, ctx, input).Some? && Parse(cs, ELEMENTS, ctx, input).value.value.Listing?
    ensures var p := Parse(cs, ELEMENTS, ctx, input).value;
            && Tiles(Reads(cs, INFORMATION_ELEMENT, ctx), input, p.value.items, starts)
            && starts[0] == 0 && p.rest == input[starts[|starts| - 1]..]
            && (forall i :: 0 <= i < |starts| - 1 ==> starts[i] + 2 <= starts[i + 1])
            && Parse(cs, INFORMATION_ELEMENT, ctx, p.rest).None?
  {
    ElementsAlwaysParse(cs, ctx, input);
    starts := GreedyTilesPrefix(cs, INFORMATION_ELEMENT, ctx, input);
    var items := ParseGreedy(cs, INFORMATION_ELEMENT, ctx, input).value.value.items;
    forall i | 0 <= i < |starts| - 1
      ensures starts[i] + 2 <= starts[i + 1]
    {
      assert TileAt(Reads(cs, INFORMATION_ELEMENT, ctx), input, items, starts, i);
      ElementTakesTwo(cs, ctx, input[starts[i]..]);
    }
  }
}
