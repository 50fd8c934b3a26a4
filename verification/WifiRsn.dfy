/** RSN elements: when they parse, when they stay within their length, and what their bytes mean. */
module WifiRsn {
  import opened Common
  import opened Construct
  import opened ConstructNames
  import opened FieldNames
  import opened WifiGrammar
  import opened WifiLaws
  import opened WifiTails
  import opened WifiElements
  import opened WifiRsnLayout

  // ---- Length -------------------------------------------------------------------------------

  /** The counts of a parsed RSN element and its two optional fields. */
  datatype RsnView = RsnView(pairwise: nat, akm: nat, pmkids: nat, capabilities: Value, groupManagement: Value)

  ghost predicate Shows(scope: Scope, v: RsnView) {
    && Says(scope, PairwiseCipherSuiteCount, v.pairwise) && Says(scope, AkmSuiteCount, v.akm) && Says(scope, PmkidCount, v.pmkids)
    && Keeps(scope, RsnCapabilities, v.capabilities) && Keeps(scope, GroupManagementCipherSuite, v.groupManagement)
  }

  /** Each counted list that the length lets in fits in it. */
  predicate ListsFit(length: int, v: RsnView) {
    && (length >= 8 ==> 8 + 4 * v.pairwise <= length)
    && (length >= 10 + 4 * v.pairwise ==> 10 + 4 * v.pairwise + 4 * v.akm <= length)
    && (length >= 14 + 4 * v.pairwise + 4 * v.akm ==> 14 + 4 * v.pairwise + 4 * v.akm + 16 * v.pmkids <= length)
  }

  /** A later optional field is there only if every earlier one is; a list is empty unless its counter was read. */
  predicate InOrder(length: int, v: RsnView) {
    && (v.pairwise > 0 ==> length >= 8)
    && (v.akm > 0 ==> length >= 10 + 4 * v.pairwise)
    && (v.capabilities != Nothing <==> length >= 12 + 4 * v.pairwise + 4 * v.akm)
    && (v.pmkids > 0 ==> v.capabilities != Nothing)
    && (v.groupManagement != Nothing ==> v.capabilities != Nothing)
  }

  /** The element's layout as the counts of its record. */
  predicate Views(v: RsnView, at: bytes, l: Layout) {
    && v.pairwise == l.pairwise && v.akm == l.akms && v.pmkids == l.pmkids
    && v.capabilities == CapabilitiesOf(l.hasCapabilities, at, l.capabilitiesAt)
    && v.groupManagement == SuiteOf(l.hasGroup, at, l.groupAt)
  }

  lemma ViewOf(q: Scope, at: bytes, l: Layout) returns (v: RsnView)
    requires RsnFacts(q, at, l)
    ensures Shows(q, v) && Views(v, at, l)
  {
    v := RsnView(l.pairwise, l.akms, l.pmkids, CapabilitiesOf(l.hasCapabilities, at, l.capabilitiesAt),
                 SuiteOf(l.hasGroup, at, l.groupAt));
  }

  /** The two optional fields are there as the layout says. */
  lemma OptionsShow(at: bytes, l: Layout, n: int)
    requires Climbs(l) && CapabilityStage(l, n) && GroupStage(l, n) && l.end <= |at|
    ensures CapabilitiesOf(l.hasCapabilities, at, l.capabilitiesAt) != Nothing <==> l.hasCapabilities
    ensures SuiteOf(l.hasGroup, at, l.groupAt) != Nothing <==> l.hasGroup
  {
    if l.hasCapabilities {
      RsnCapabilityNames();
      DistinctBitsParse(RSN_CAPABILITY_BITS, Octets(at, l.capabilitiesAt), map[]);
    }
  }

  /** The element takes more than `n` bytes unless `n` is at least 6 and every list let in fits. */
  lemma EndWithin(at: bytes, n: int, v: RsnView)
    requires var l := LayoutOf(at, n); v.pairwise == l.pairwise && v.akm == l.akms && v.pmkids == l.pmkids
    ensures var l := LayoutOf(at, n);
            && (l.end <= n <==> n >= 6 && ListsFit(n, v))
            && (l.end <= n && !l.hasGroup ==> n - l.end <= 3)
  {
  }

  lemma LayoutInOrder(at: bytes, n: int, v: RsnView)
    requires var l := LayoutOf(at, n);
             && v.pairwise == l.pairwise && v.akm == l.akms && v.pmkids == l.pmkids
             && (v.capabilities != Nothing <==> l.hasCapabilities) && (v.groupManagement != Nothing <==> l.hasGroup)
    ensures InOrder(n, v)
  {
  }

  /**
   An RSN element stays within its length exactly when the length is at least 6 and every
   list it lets in fits; without the group management suite at most three bytes are then left over.
   */
  lemma RsnStaysWithinLength(cs: Codecs, ctx: Context, input: bytes, length: int) returns (v: RsnView)
    requires ParseFields(cs, RSN_FIELDS, ctx, map[], input).Some? && HasLength(ctx, length)
    ensures var q := ParseFields(cs, RSN_FIELDS, ctx, map[], input).value;
            var consumed := |input| - |q.rest|;
            && Shows(q.scope, v) && InOrder(length, v)
            && (consumed <= length <==> length >= 6 && ListsFit(length, v))
            && (consumed <= length && v.groupManagement == Nothing ==> length - consumed <= 3)
  {
    var w := RsnParses(cs, ctx, input, length);
    var l := LayoutOf(input, length);
    LayoutStages(input, length);
    v := ViewOf(w.value.scope, input, l);
    OptionsShow(input, l, length);
    EndWithin(input, length, v);
    LayoutInOrder(input, length, v);
  }

  // ---- The element among others ------------------------------------------------------------------------

  lemma RsnCase()
    ensures CaseOf(ELEMENT_CASES, RSN_ID) == Struct(RSN_FIELDS)
  {
    var c3 := ELEMENT_CASES.rest.rest.rest;
    var c6 := c3.rest.rest.rest;
    var c9 := c6.rest.rest.rest;
    assert CaseOf(c9, RSN_ID) == Struct(RSN_FIELDS);
    assert CaseOf(c6, RSN_ID) == CaseOf(c9, RSN_ID);
    assert CaseOf(c3, RSN_ID) == CaseOf(c6, RSN_ID);
  }

  lemma RsnInfo(cs: Codecs, ctx: Context, length: int, at: bytes) returns (inner: Context)
    requires length >= 1
    ensures inner == [ElementHead(RSN_ID, length)] + ctx && HasLength(inner, length)
    ensures InfoOf(cs, ctx, RSN_ID, length, at)
         == match ParseFields(cs, RSN_FIELDS, inner, map[], at)
            case None => None
            case Some(w) => Some(Parsed(Rec(w.scope), w.rest, w.texts))
  {
    RsnCase();
    inner := [ElementHead(RSN_ID, length)] + ctx;
    assert Len in inner[0] && inner[0][Len] == Num(length);
  }

  lemma TailOfTail(input: bytes, k: nat)
    requires |input| >= 2
    ensures k <= |input[2..]| <==> 2 + k <= |input|
    ensures 2 + k <= |input| ==> input[2..][k..] == input[2 + k..]
  {
  }

  /** The record of a parsed element with this content. */
  predicate HasInfo(element: Value, id: int, length: int, info: Scope) {
    element == Rec(ElementHead(id, length)[Info := Rec(info)])
  }

  /**
   An RSN element of length 1 or more parses exactly when the bytes of its layout are there,
   even those past its length; it takes them, and its record is what they mean.
   */
  lemma RsnElementParsesExactlyWhen(cs: Codecs, ctx: Context, input: bytes) returns (info: Scope)
    requires |input| >= 2 && input[0] == RSN_ID && input[1] >= 1
    ensures var l, p := LayoutOf(input[2..], input[1]), Parse(cs, INFORMATION_ELEMENT, ctx, input);
            && (p.Some? <==> 2 + l.end <= |input|)
            && (p.Some? ==> && p.value.rest == input[2 + l.end..] && p.value.texts == []
                            && HasInfo(p.value.value, RSN_ID, input[1], info) && RsnFacts(info, input[2..], l))
  {
    ElementFollows(cs, ctx, input);
    var inner := RsnInfo(cs, ctx, input[1], input[2..]);
    var w := RsnParses(cs, inner, input[2..], input[1]);
    var l := LayoutOf(input[2..], input[1]);
    TailOfTail(input, l.end);
    info := map[];
    if w.Some? {
      info := w.value.scope;
    }
  }

  lemma InfoOfHead(id: int, length: int, info: Value)
    ensures var e := ElementHead(id, length)[Info := info];
            Info in e && e[Info] == info
  {
  }

  /** An RSN element reaches into the element after it exactly when its length is below 6 or a list does not fit. */
  lemma RsnElementKeepsToItself(cs: Codecs, ctx: Context, input: bytes) returns (v: RsnView)
    requires |input| >= 2 && input[0] == RSN_ID && input[1] >= 1 && Parse(cs, INFORMATION_ELEMENT, ctx, input).Some?
    ensures var e := Parse(cs, INFORMATION_ELEMENT, ctx, input).value.value;
            e.Rec? && Info in e.fields && e.fields[Info].Rec? && Shows(e.fields[Info].fields, v)
    ensures var length: int := input[1];
            var consumed := |input| - |Parse(cs, INFORMATION_ELEMENT, ctx, input).value.rest|;
            && InOrder(length, v)
            && (consumed <= 2 + length <==> length >= 6 && ListsFit(length, v))
            && (consumed <= 2 + length && v.groupManagement == Nothing ==> 2 + length - consumed <= 3)
  {
    var p := ElementIs(cs, ctx, input);
    InfoOfHead(input[0], input[1], p.value);
    var inner := RsnInfo(cs, ctx, input[1], input[2..]);
    v := RsnStaysWithinLength(cs, inner, input[2..], input[1]);
  }
}
