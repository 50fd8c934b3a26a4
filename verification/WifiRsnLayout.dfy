/** The content of an RSN element: which bytes it takes, and what they mean. */
module WifiRsnLayout {
  import opened Common
  import opened BitOrder
  import opened Construct
  import opened ConstructLaws
  import opened ConstructNames
  import opened FieldNames
  import opened WifiGrammar
  import opened WifiLaws
  import opened WifiElements

  // ---- Reading the bytes -------------------------------------------------------------------

  /** The two-byte number at `o`, or 0 past the end. */
  function Word16(at: bytes, o: nat): nat {
    if o + 2 <= |at| then LittleEndian(at[o..o + 2]) else 0
  }

  /** A counter that is there or counts as 0. */
  function Counter(there: bool, at: bytes, o: nat): nat {
    if there then Word16(at, o) else 0
  }

  /** The size of a suite or of a PMKID. */
  function Width(item: Con): nat {
    if item.IntBig? then 4 else 16
  }

  function Total(item: Con, n: nat): nat {
    if item.IntBig? then 4 * n else 16 * n
  }

  predicate IsItem(item: Con) {
    item == IntBig(4) || item == FixedBytes(Lit(16))
  }

  function ItemAt(item: Con, at: bytes, o: nat): Value
    requires o + Width(item) <= |at|
  {
    if item.IntBig? then Num(BigEndian(at[o..o + 4])) else Data(at[o..o + 16])
  }

  /** Items one after the other, as far as there are any. */
  function Items(item: Con, at: bytes, o: nat, n: nat): (r: seq<Value>)
    decreases n
  {
    if n == 0 || o + Width(item) > |at| then [] else [ItemAt(item, at, o)] + Items(item, at, o + Width(item), n - 1)
  }

  lemma ItemParses(cs: Codecs, item: Con, ctx: Context, at: bytes, o: nat)
    requires IsItem(item) && o <= |at|
    ensures Parse(cs, item, ctx, at[o..])
         == if o + Width(item) > |at| then None else Some(Parsed(ItemAt(item, at, o), at[o + Width(item)..], []))
  {
    if o + Width(item) <= |at| {
      assert at[o..][..Width(item)] == at[o..o + Width(item)] && at[o..][Width(item)..] == at[o + Width(item)..];
    }
  }

  lemma {:induction false} ManyParse(cs: Codecs, item: Con, ctx: Context, at: bytes, o: nat, n: nat)
    requires IsItem(item) && o <= |at|
    ensures ParseMany(cs, item, ctx, n, at[o..])
         == if o + Total(item, n) > |at| then None
            else Some(Parsed(Listing(Items(item, at, o, n)), at[o + Total(item, n)..], []))
    decreases n
  {
    if n > 0 {
      ItemParses(cs, item, ctx, at, o);
      var next := o + Width(item);
      assert Total(item, n) == Width(item) + Total(item, n - 1);
      if next > |at| {
        assert ParseMany(cs, item, ctx, n, at[o..]) == None;
      } else {
        ManyParse(cs, item, ctx, at, next, n - 1);
        var p, rest := Parse(cs, item, ctx, at[o..]).value, ParseMany(cs, item, ctx, n - 1, at[next..]);
        assert p.rest == at[next..];
        assert Items(item, at, o, n) == [ItemAt(item, at, o)] + Items(item, at, next, n - 1);
        if rest.Some? {
          assert p.texts + rest.value.texts == [];
          assert ParseMany(cs, item, ctx, n, at[o..])
              == Some(Parsed(Listing([p.value] + rest.value.value.items), rest.value.rest, p.texts + rest.value.texts));
        }
      }
    }
  }

  /** A counter is read when its condition holds and is 0 otherwise. */
  lemma CounterParses(cs: Codecs, cond: Expr, ctx: Context, at: bytes, o: nat, there: bool)
    requires o <= |at| && Eval(ctx, cond) == Some(Truth(there))
    ensures Parse(cs, IfThenElse(cond, IntLittle(2), Computed(0)), ctx, at[o..])
         == if o + Opt(there, 2) > |at| then None
            else Some(Parsed(Num(Counter(there, at, o)), at[o + Opt(there, 2)..], []))
  {
    if o + 2 <= |at| {
      assert at[o..][..2] == at[o..o + 2] && at[o..][2..] == at[o + 2..];
    }
  }

  lemma ListParses(cs: Codecs, count: Expr, item: Con, ctx: Context, at: bytes, o: nat, n: nat)
    requires IsItem(item) && o <= |at| && Eval(ctx, count) == Some(n)
    ensures Parse(cs, Array(count, item), ctx, at[o..])
         == if o + Total(item, n) > |at| then None
            else Some(Parsed(Listing(Items(item, at, o, n)), at[o + Total(item, n)..], []))
  {
    ManyParse(cs, item, ctx, at, o, n);
  }

  // ---- Conditions -------------------------------------------------------------------------------

  /** The element around the struct says this length. */
  predicate HasLength(ctx: Context, length: int) {
    ctx != [] && Len in ctx[0] && ctx[0][Len] == Num(length)
  }

  lemma EvalLength(scope: Scope, ctx: Context, length: int)
    requires HasLength(ctx, length)
    ensures Eval([scope] + ctx, LENGTH) == Some(length)
  {
    assert ([scope] + ctx)[1] == ctx[0];
  }

  /** A condition on the element's length. */
  lemma EvalReaches(scope: Scope, ctx: Context, length: int, base: int, lists: Expr, n: int)
    requires HasLength(ctx, length) && Eval([scope] + ctx, lists) == Some(n)
    ensures Eval([scope] + ctx, Reaches(base, lists)) == Some(Truth(length >= base + n))
  {
    EvalLength(scope, ctx, length);
    assert Eval([scope] + ctx, Plus(Lit(base), lists)) == Some(base + n);
  }

  lemma PairwiseBytes(scope: Scope, ctx: Context, p: int) returns (n: int)
    requires Says(scope, PairwiseCipherSuiteCount, p)
    ensures Eval([scope] + ctx, PAIRWISE_BYTES) == Some(n) && n == 4 * p
  {
    n := 4 * p;
    EvalThis(scope, ctx, PairwiseCipherSuiteCount, p);
  }

  lemma SuiteBytes(scope: Scope, ctx: Context, p: int, a: int) returns (n: int)
    requires Says(scope, PairwiseCipherSuiteCount, p) && Says(scope, AkmSuiteCount, a)
    ensures Eval([scope] + ctx, SUITE_BYTES) == Some(n) && n == 4 * p + 4 * a
  {
    n := 4 * p + 4 * a;
    var m := PairwiseBytes(scope, ctx, p);
    EvalThis(scope, ctx, AkmSuiteCount, a);
    assert Eval([scope] + ctx, Times(This(AkmSuiteCount), Lit(4))) == Some(4 * a);
  }

  lemma ListBytes(scope: Scope, ctx: Context, p: int, a: int, k: int) returns (n: int)
    requires Says(scope, PairwiseCipherSuiteCount, p) && Says(scope, AkmSuiteCount, a) && Says(scope, PmkidCount, k)
    ensures Eval([scope] + ctx, LIST_BYTES) == Some(n) && n == 4 * p + 4 * a + 16 * k
  {
    n := 4 * p + 4 * a + 16 * k;
    var m := SuiteBytes(scope, ctx, p, a);
    EvalThis(scope, ctx, PmkidCount, k);
    assert Eval([scope] + ctx, Times(This(PmkidCount), Lit(16))) == Some(16 * k);
  }

  // ---- What a record keeps ----------------------------------------------------------------------------

  predicate Keeps(scope: Scope, name: Name, v: Value) {
    name in scope && scope[name] == v
  }

  lemma SetKeeps(scope: Scope, name: Name, v: Value, other: Name, w: Value)
    requires Keeps(scope, other, w) && other != name
    ensures Keeps(scope[name := v], other, w)
  {
  }

  /** The record after a counter and its list. */
  function Counted(scope: Scope, counter: Name, count: nat, name: Name, items: seq<Value>): Scope {
    scope[counter := Num(count)][name := Listing(items)]
  }

  lemma CountedHolds(scope: Scope, counter: Name, count: nat, name: Name, items: seq<Value>)
    requires counter != name
    ensures Says(Counted(scope, counter, count, name, items), counter, count)
    ensures Keeps(Counted(scope, counter, count, name, items), name, Listing(items))
  {
  }

  lemma CountedKeeps(scope: Scope, counter: Name, count: nat, name: Name, items: seq<Value>, other: Name, v: Value)
    requires Keeps(scope, other, v) && other != counter && other != name
    ensures Keeps(Counted(scope, counter, count, name, items), other, v)
  {
  }

  // ---- A counter and its list, an optional field ------------------------------------------------------------

  predicate IsCounted(f: FieldList, base: int, lists: Expr, item: Con) {
    && f.Field? && f.con == IfThenElse(Reaches(base, lists), IntLittle(2), Computed(0))
    && f.rest.Field? && f.rest.con == Array(This(f.name), item)
  }

  /** From the bytes at `o`: the counter if the length reaches it, then as many items, then the other fields; or nothing parses. */
  lemma CountedList(cs: Codecs, f: FieldList, base: int, lists: Expr, item: Con, ctx: Context, scope: Scope, at: bytes, o: nat,
                    length: int, n: int, there: bool, next: nat) returns (count: nat, items: seq<Value>)
    requires IsCounted(f, base, lists, item) && IsItem(item) && Unread(scope, f) && o <= |at|
    requires HasLength(ctx, length) && Eval([scope] + ctx, lists) == Some(n) && there == (length >= base + n)
    requires next == o + Opt(there, 2) + Total(item, Counter(there, at, o))
    ensures count == Counter(there, at, o) && items == Items(item, at, o + Opt(there, 2), count)
    ensures f.name != f.rest.name && Unread(Counted(scope, f.name, count, f.rest.name, items), f.rest.rest)
    ensures ParseFields(cs, f, ctx, scope, at[o..])
         == if next > |at| then None
            else ParseFields(cs, f.rest.rest, ctx, Counted(scope, f.name, count, f.rest.name, items), at[next..])
  {
    EvalReaches(scope, ctx, length, base, lists, n);
    count := Counter(there, at, o);
    var o1 := o + Opt(there, 2);
    items := Items(item, at, o1, count);
    var s1 := scope[f.name := Num(count)];
    UnreadStep(scope, f, Num(count));
    UnreadStep(s1, f.rest, Listing(items));
    CounterParses(cs, Reaches(base, lists), [scope] + ctx, at, o, there);
    if o1 > |at| {
      StopsThere(cs, f, ctx, scope, at[o..]);
    } else {
      Onwards(cs, f, ctx, scope, at[o..], Parsed(Num(count), at[o1..], []));
      ListOf(cs, f, item, ctx, s1, at, o1, count);
    }
  }

  /** The list after its counter. */
  lemma ListOf(cs: Codecs, f: FieldList, item: Con, ctx: Context, scope: Scope, at: bytes, o: nat, count: nat)
    requires f.Field? && f.rest.Field? && f.rest.con == Array(This(f.name), item) && IsItem(item)
    requires Unread(scope, f.rest) && Says(scope, f.name, count) && o <= |at|
    ensures ParseFields(cs, f.rest, ctx, scope, at[o..])
         == if o + Total(item, count) > |at| then None
            else ParseFields(cs, f.rest.rest, ctx, scope[f.rest.name := Listing(Items(item, at, o, count))],
                             at[o + Total(item, count)..])
  {
    EvalThis(scope, ctx, f.name, count);
    ListParses(cs, This(f.name), item, [scope] + ctx, at, o, count);
    if o + Total(item, count) > |at| {
      StopsThere(cs, f.rest, ctx, scope, at[o..]);
    } else {
      Onwards(cs, f.rest, ctx, scope, at[o..], Parsed(Listing(Items(item, at, o, count)), at[o + Total(item, count)..], []));
    }
  }

  predicate IsOptional(f: FieldList, base: int, lists: Expr, con: Con) {
    f.Field? && f.con == If(Reaches(base, lists), con)
  }

  lemma OptionalField(cs: Codecs, f: FieldList, base: int, lists: Expr, con: Con, w: nat, v: Value, ctx: Context, scope: Scope,
                      at: bytes, o: nat, length: int, n: int, there: bool, next: nat)
    requires IsOptional(f, base, lists, con) && Unread(scope, f) && o <= |at|
    requires HasLength(ctx, length) && Eval([scope] + ctx, lists) == Some(n) && there == (length >= base + n)
    requires ParsesTo(cs, con, [scope] + ctx, at, o, w, v) && next == o + Opt(there, w)
    ensures Unread(scope[f.name := if there then v else Nothing], f.rest)
    ensures ParseFields(cs, f, ctx, scope, at[o..])
         == if next > |at| then None
            else ParseFields(cs, f.rest, ctx, scope[f.name := if there then v else Nothing], at[next..])
  {
    EvalReaches(scope, ctx, length, base, lists, n);
    OptionalAt(cs, f, Reaches(base, lists), con, w, v, ctx, scope, at, o, there, next);
  }

  // ---- The layout of the content ---------------------------------------------------------------------------

  /** Which parts are there, how many items the lists have, and where each part starts. */
  datatype Layout = Layout(
    hasPairwise: bool, pairwise: nat, pairwiseList: nat,
    hasAkms: bool, akms: nat, akmAt: nat, akmList: nat,
    hasCapabilities: bool, capabilitiesAt: nat,
    hasPmkids: bool, pmkids: nat, pmkidAt: nat,
    hasGroup: bool, groupAt: nat, end: nat)

  /** The layout of the content of an RSN element of length `n`. */
  function LayoutOf(at: bytes, n: int): Layout {
    var hasPairwise := n >= 8;
    var pairwise, pairwiseList := Counter(hasPairwise, at, 6), 6 + Opt(hasPairwise, 2);
    var akmAt, hasAkms := pairwiseList + 4 * pairwise, n >= 10 + 4 * pairwise;
    var akms, akmList := Counter(hasAkms, at, akmAt), akmAt + Opt(hasAkms, 2);
    var capabilitiesAt, hasCapabilities := akmList + 4 * akms, n >= 12 + 4 * pairwise + 4 * akms;
    var pmkidAt, hasPmkids := capabilitiesAt + Opt(hasCapabilities, 2), n >= 14 + 4 * pairwise + 4 * akms;
    var pmkids := Counter(hasPmkids, at, pmkidAt);
    var groupAt, hasGroup := pmkidAt + Opt(hasPmkids, 2) + 16 * pmkids, n >= 18 + 4 * pairwise + 4 * akms + 16 * pmkids;
    Layout(hasPairwise, pairwise, pairwiseList, hasAkms, akms, akmAt, akmList, hasCapabilities, capabilitiesAt,
           hasPmkids, pmkids, pmkidAt, hasGroup, groupAt, groupAt + Opt(hasGroup, 4))
  }

  // The equations of a layout, stage by stage.

  predicate GroupStage(l: Layout, n: int) {
    l.hasGroup == (n >= 18 + 4 * l.pairwise + 4 * l.akms + 16 * l.pmkids) && l.end == l.groupAt + Opt(l.hasGroup, 4)
  }

  predicate PmkidStage(l: Layout, at: bytes, n: int) {
    && l.hasPmkids == (n >= 14 + 4 * l.pairwise + 4 * l.akms) && l.pmkids == Counter(l.hasPmkids, at, l.pmkidAt)
    && l.groupAt == l.pmkidAt + Opt(l.hasPmkids, 2) + 16 * l.pmkids
  }

  predicate CapabilityStage(l: Layout, n: int) {
    l.hasCapabilities == (n >= 12 + 4 * l.pairwise + 4 * l.akms) && l.pmkidAt == l.capabilitiesAt + Opt(l.hasCapabilities, 2)
  }

  predicate AkmStage(l: Layout, at: bytes, n: int) {
    && l.hasAkms == (n >= 10 + 4 * l.pairwise) && l.akms == Counter(l.hasAkms, at, l.akmAt)
    && l.akmList == l.akmAt + Opt(l.hasAkms, 2) && l.capabilitiesAt == l.akmList + 4 * l.akms
  }

  predicate PairwiseStage(l: Layout, at: bytes, n: int) {
    && l.hasPairwise == (n >= 8) && l.pairwise == Counter(l.hasPairwise, at, 6)
    && l.pairwiseList == 6 + Opt(l.hasPairwise, 2) && l.akmAt == l.pairwiseList + 4 * l.pairwise
  }

  predicate Climbs(l: Layout) {
    6 <= l.akmAt <= l.capabilitiesAt <= l.pmkidAt <= l.groupAt <= l.end
  }

  lemma LayoutStages(at: bytes, n: int)
    ensures var l := LayoutOf(at, n);
            && PairwiseStage(l, at, n) && AkmStage(l, at, n) && CapabilityStage(l, n) && PmkidStage(l, at, n) && GroupStage(l, n)
            && Climbs(l)
  {
  }

  // ---- What the fields are ------------------------------------------------------------------------------------

  function SuiteOf(there: bool, at: bytes, o: nat): Value {
    if there && o + 4 <= |at| then Num(BigEndian(at[o..o + 4])) else Nothing
  }

  /** The two capability octets as a record, most significant bit of each octet first. */
  function CapabilitiesOf(there: bool, at: bytes, o: nat): Value {
    if there && o + 2 <= |at| && ParseBits(RSN_CAPABILITY_BITS, Octets(at, o), map[]).Some?
    then Rec(ParseBits(RSN_CAPABILITY_BITS, Octets(at, o), map[]).value) else Nothing
  }

  function Octets(at: bytes, o: nat): seq<bit>
    requires o + 2 <= |at|
    ensures |Octets(at, o)| == BitWidth(RSN_CAPABILITY_BITS)
  {
    CapabilityWidth();
    Stream(at[o..o + 2], false)
  }

  lemma CapabilityWidth()
    ensures BitWidth(RSN_CAPABILITY_BITS) == 16
  {
  }

  /** The record of the element, field by field out of its bytes. */
  ghost predicate RsnFacts(q: Scope, at: bytes, l: Layout) {
    Says(q, Version, Word16(at, 0)) && SuiteFacts(q, at, l)
  }

  ghost predicate SuiteFacts(q: Scope, at: bytes, l: Layout) {
    && Keeps(q, GroupCipherSuite, SuiteOf(true, at, 2))
    && Says(q, PairwiseCipherSuiteCount, l.pairwise)
    && Keeps(q, PairwiseCipherSuites, Listing(Items(IntBig(4), at, l.pairwiseList, l.pairwise)))
    && AkmFacts(q, at, l) && CapabilityFacts(q, at, l) && PmkidFacts(q, at, l) && GroupFacts(q, at, l)
  }

  ghost predicate AkmFacts(q: Scope, at: bytes, l: Layout) {
    Says(q, AkmSuiteCount, l.akms) && Keeps(q, AkmSuites, Listing(Items(IntBig(4), at, l.akmList, l.akms)))
  }

  ghost predicate CapabilityFacts(q: Scope, at: bytes, l: Layout) {
    Keeps(q, RsnCapabilities, CapabilitiesOf(l.hasCapabilities, at, l.capabilitiesAt))
  }

  ghost predicate PmkidFacts(q: Scope, at: bytes, l: Layout) {
    && Says(q, PmkidCount, l.pmkids)
    && Keeps(q, Pmkids, Listing(Items(FixedBytes(Lit(16)), at, l.pmkidAt + Opt(l.hasPmkids, 2), l.pmkids)))
  }

  ghost predicate GroupFacts(q: Scope, at: bytes, l: Layout) {
    Keeps(q, GroupManagementCipherSuite, SuiteOf(l.hasGroup, at, l.groupAt))
  }

  // ---- Parsing is reading the layout -------------------------------------------------------------------------

  /** The parse takes the bytes up to `size`, without text, and fails exactly when they are not there. */
  predicate TakesUpTo(w: Option<ParsedFields>, at: bytes, size: nat) {
    if size > |at| then w.None? else w.Some? && w.value.rest == at[size..] && w.value.texts == []
  }

  // The fields of the grammar from the group management suite on, from the PMKIDs on, and so back to the pairwise suites.

  predicate GroupTail(f: FieldList) {
    f.Field? && f.name == GroupManagementCipherSuite && IsOptional(f, 18, LIST_BYTES, IntBig(4)) && f.rest == End
  }

  predicate PmkidTail(f: FieldList) {
    && IsCounted(f, 14, SUITE_BYTES, FixedBytes(Lit(16)))
    && f.name == PmkidCount && f.rest.name == Pmkids && GroupTail(f.rest.rest)
  }

  predicate CapabilityTail(f: FieldList) {
    && f.Field? && f.con.IfThenElse?
    && f.name == RsnCapabilities && IsOptional(f, 12, SUITE_BYTES, f.con.thn) && PmkidTail(f.rest)
  }

  predicate AkmTail(f: FieldList) {
    && IsCounted(f, 10, PAIRWISE_BYTES, IntBig(4))
    && f.name == AkmSuiteCount && f.rest.name == AkmSuites && CapabilityTail(f.rest.rest)
  }

  predicate PairwiseTail(f: FieldList) {
    && IsCounted(f, 8, Lit(0), IntBig(4))
    && f.name == PairwiseCipherSuiteCount && f.rest.name == PairwiseCipherSuites && AkmTail(f.rest.rest)
  }

  lemma RsnShape()
    ensures PairwiseTail(RSN_FIELDS.rest.rest) && RSN_FIELDS.rest.rest.rest.rest.rest.rest.con.thn == RSN_CAPABILITIES
  {
  }

  lemma SuiteParses(cs: Codecs, ctx: Context, at: bytes, o: nat)
    requires o <= |at|
    ensures ParsesTo(cs, IntBig(4), ctx, at, o, 4, SuiteOf(true, at, o))
  {
    ItemParses(cs, IntBig(4), ctx, at, o);
  }

  lemma PmkidsKeep(scope: Scope, k: nat, items: seq<Value>, p: nat, a: nat)
    requires Says(scope, PairwiseCipherSuiteCount, p) && Says(scope, AkmSuiteCount, a)
    ensures var next := Counted(scope, PmkidCount, k, Pmkids, items);
            && Says(next, PairwiseCipherSuiteCount, p) && Says(next, AkmSuiteCount, a) && Says(next, PmkidCount, k)
            && Keeps(next, Pmkids, Listing(items))
  {
    CountedHolds(scope, PmkidCount, k, Pmkids, items);
    CountedKeeps(scope, PmkidCount, k, Pmkids, items, PairwiseCipherSuiteCount, Num(p));
    CountedKeeps(scope, PmkidCount, k, Pmkids, items, AkmSuiteCount, Num(a));
  }

  /** What was read stays in the final record. */
  lemma StaysRead(cs: Codecs, f: FieldList, ctx: Context, scope: Scope, input: bytes, name: Name, v: Value)
    requires ParseFields(cs, f, ctx, scope, input).Some? && Keeps(scope, name, v)
    ensures Keeps(ParseFields(cs, f, ctx, scope, input).value.scope, name, v)
  {
    FieldsKeep(cs, f, ctx, scope, input);
  }

  lemma CapabilitiesKeep(scope: Scope, v: Value, p: nat, a: nat)
    requires Says(scope, PairwiseCipherSuiteCount, p) && Says(scope, AkmSuiteCount, a)
    ensures var next := scope[RsnCapabilities := v];
            && Says(next, PairwiseCipherSuiteCount, p) && Says(next, AkmSuiteCount, a) && Keeps(next, RsnCapabilities, v)
  {
    SetKeeps(scope, RsnCapabilities, v, PairwiseCipherSuiteCount, Num(p));
    SetKeeps(scope, RsnCapabilities, v, AkmSuiteCount, Num(a));
  }

  lemma CapabilitiesParse(cs: Codecs, ctx: Context, at: bytes, o: nat)
    requires o <= |at|
    ensures ParsesTo(cs, RSN_CAPABILITIES, ctx, at, o, 2, CapabilitiesOf(true, at, o))
  {
    CapabilityWidth();
    RsnCapabilityNames();
    TwoBytesParse(cs, false, RSN_CAPABILITY_BITS, ctx, at[o..]);
    if o + 2 <= |at| {
      assert at[o..][..2] == at[o..o + 2] && at[o..][2..] == at[o + 2..];
    }
  }

  // ---- From one stage to the next ------------------------------------------------------------------------------

  lemma GroupShape(f: FieldList)
    requires GroupTail(f)
    ensures f.name == GroupManagementCipherSuite && IsOptional(f, 18, LIST_BYTES, IntBig(4)) && f.rest == End
  {
  }

  lemma GroupStarts(l: Layout, n: int)
    requires GroupStage(l, n)
    ensures l.hasGroup == (n >= 18 + (4 * l.pairwise + 4 * l.akms + 16 * l.pmkids)) && l.end == l.groupAt + Opt(l.hasGroup, 4)
  {
  }

  /** Behind the last field the parse ends. */
  lemma GroupReads(cs: Codecs, ctx: Context, scope: Scope, at: bytes, l: Layout, w: Option<ParsedFields>)
    requires l.groupAt <= |at| && l.end == l.groupAt + Opt(l.hasGroup, 4)
    requires w == if l.end > |at| then None
                  else ParseFields(cs, End, ctx, scope[GroupManagementCipherSuite :=
                                                       if l.hasGroup then SuiteOf(true, at, l.groupAt) else Nothing], at[l.end..])
    ensures TakesUpTo(w, at, l.end) && (w.Some? ==> GroupFacts(w.value.scope, at, l))
  {
  }

  lemma FromGroup(cs: Codecs, f: FieldList, ctx: Context, scope: Scope, at: bytes, n: int, l: Layout)
    returns (w: Option<ParsedFields>)
    requires GroupTail(f) && Unread(scope, f) && HasLength(ctx, n) && l.groupAt <= |at| && GroupStage(l, n)
    requires Says(scope, PairwiseCipherSuiteCount, l.pairwise) && Says(scope, AkmSuiteCount, l.akms)
    requires Says(scope, PmkidCount, l.pmkids)
    ensures w == ParseFields(cs, f, ctx, scope, at[l.groupAt..]) && TakesUpTo(w, at, l.end)
    ensures w.Some? ==> GroupFacts(w.value.scope, at, l)
  {
    hide *;
    GroupShape(f);
    GroupStarts(l, n);
    var o := l.groupAt;
    var m := ListBytes(scope, ctx, l.pairwise, l.akms, l.pmkids);
    SuiteParses(cs, [scope] + ctx, at, o);
    OptionalField(cs, f, 18, LIST_BYTES, IntBig(4), 4, SuiteOf(true, at, o), ctx, scope, at, o, n, m, l.hasGroup, l.end);
    w := ParseFields(cs, f, ctx, scope, at[o..]);
    GroupReads(cs, ctx, scope, at, l, w);
  }

  lemma PmkidShape(f: FieldList)
    requires PmkidTail(f)
    ensures IsCounted(f, 14, SUITE_BYTES, FixedBytes(Lit(16))) && f.name == PmkidCount && f.rest.name == Pmkids
    ensures GroupTail(f.rest.rest) && IsItem(FixedBytes(Lit(16)))
  {
  }

  lemma PmkidStarts(l: Layout, at: bytes, n: int)
    requires PmkidStage(l, at, n) && Climbs(l)
    ensures l.hasPmkids == (n >= 14 + (4 * l.pairwise + 4 * l.akms)) && l.pmkids == Counter(l.hasPmkids, at, l.pmkidAt)
    ensures l.groupAt == l.pmkidAt + Opt(l.hasPmkids, 2) + Total(FixedBytes(Lit(16)), Counter(l.hasPmkids, at, l.pmkidAt))
  {
  }

  /** Where a part ends past the bytes, nothing parses. */
  lemma NothingParses(w: Option<ParsedFields>, at: bytes, l: Layout, o: nat)
    requires Climbs(l) && o in {l.akmAt, l.capabilitiesAt, l.pmkidAt, l.groupAt} && o > |at| && w.None?
    ensures TakesUpTo(w, at, l.end)
  {
  }

  lemma PmkidsRead(q: Scope, at: bytes, l: Layout, k: nat, items: seq<Value>)
    requires Keeps(q, PmkidCount, Num(k)) && Keeps(q, Pmkids, Listing(items)) && k == l.pmkids
    requires items == Items(FixedBytes(Lit(16)), at, l.pmkidAt + Opt(l.hasPmkids, 2), k)
    ensures PmkidFacts(q, at, l)
  {
  }

  /** What comes behind the list of PMKIDs. */
  lemma AfterPmkids(cs: Codecs, f: FieldList, ctx: Context, scope: Scope, at: bytes, n: int, l: Layout, k: nat, items: seq<Value>)
    returns (w: Option<ParsedFields>)
    requires GroupTail(f) && HasLength(ctx, n) && l.groupAt <= |at| && GroupStage(l, n)
    requires Says(scope, PairwiseCipherSuiteCount, l.pairwise) && Says(scope, AkmSuiteCount, l.akms)
    requires Unread(Counted(scope, PmkidCount, k, Pmkids, items), f)
    requires k == l.pmkids && items == Items(FixedBytes(Lit(16)), at, l.pmkidAt + Opt(l.hasPmkids, 2), k)
    ensures w == ParseFields(cs, f, ctx, Counted(scope, PmkidCount, k, Pmkids, items), at[l.groupAt..]) && TakesUpTo(w, at, l.end)
    ensures w.Some? ==> PmkidFacts(w.value.scope, at, l) && GroupFacts(w.value.scope, at, l)
  {
    hide *;
    PmkidsKeep(scope, k, items, l.pairwise, l.akms);
    var s := Counted(scope, PmkidCount, k, Pmkids, items);
    w := FromGroup(cs, f, ctx, s, at, n, l);
    if w.Some? {
      StaysRead(cs, f, ctx, s, at[l.groupAt..], PmkidCount, Num(k));
      StaysRead(cs, f, ctx, s, at[l.groupAt..], Pmkids, Listing(items));
      PmkidsRead(w.value.scope, at, l, k, items);
    }
  }

  lemma FromPmkids(cs: Codecs, f: FieldList, ctx: Context, scope: Scope, at: bytes, n: int, l: Layout)
    returns (w: Option<ParsedFields>)
    requires PmkidTail(f) && Unread(scope, f) && HasLength(ctx, n) && l.pmkidAt <= |at|
    requires Climbs(l) && PmkidStage(l, at, n) && GroupStage(l, n)
    requires Says(scope, PairwiseCipherSuiteCount, l.pairwise) && Says(scope, AkmSuiteCount, l.akms)
    ensures w == ParseFields(cs, f, ctx, scope, at[l.pmkidAt..]) && TakesUpTo(w, at, l.end)
    ensures w.Some? ==> PmkidFacts(w.value.scope, at, l) && GroupFacts(w.value.scope, at, l)
  {
    hide *;
    PmkidShape(f);
    PmkidStarts(l, at, n);
    var m := SuiteBytes(scope, ctx, l.pairwise, l.akms);
    var k, items := CountedList(cs, f, 14, SUITE_BYTES, FixedBytes(Lit(16)), ctx, scope, at, l.pmkidAt, n, m,
                                l.hasPmkids, l.groupAt);
    w := None;
    if l.groupAt <= |at| {
      w := AfterPmkids(cs, f.rest.rest, ctx, scope, at, n, l, k, items);
    } else {
      NothingParses(w, at, l, l.groupAt);
    }
  }

  lemma CapabilityShape(f: FieldList)
    requires CapabilityTail(f) && f.con.thn == RSN_CAPABILITIES
    ensures IsOptional(f, 12, SUITE_BYTES, RSN_CAPABILITIES) && f.name == RsnCapabilities && PmkidTail(f.rest)
  {
  }

  lemma CapabilitiesStart(l: Layout, n: int)
    requires CapabilityStage(l, n) && Climbs(l)
    ensures l.hasCapabilities == (n >= 12 + (4 * l.pairwise + 4 * l.akms))
    ensures l.pmkidAt == l.capabilitiesAt + Opt(l.hasCapabilities, 2)
  {
  }

  lemma CapabilitiesRead(q: Scope, at: bytes, l: Layout, v: Value)
    requires Keeps(q, RsnCapabilities, v)
    requires v == if l.hasCapabilities then CapabilitiesOf(true, at, l.capabilitiesAt) else Nothing
    ensures CapabilityFacts(q, at, l)
  {
  }

  lemma FromCapabilities(cs: Codecs, f: FieldList, ctx: Context, scope: Scope, at: bytes, n: int, l: Layout)
    returns (w: Option<ParsedFields>)
    requires CapabilityTail(f) && f.con.thn == RSN_CAPABILITIES && Unread(scope, f) && HasLength(ctx, n) && l.capabilitiesAt <= |at|
    requires Climbs(l) && CapabilityStage(l, n) && PmkidStage(l, at, n) && GroupStage(l, n)
    requires Says(scope, PairwiseCipherSuiteCount, l.pairwise) && Says(scope, AkmSuiteCount, l.akms)
    ensures w == ParseFields(cs, f, ctx, scope, at[l.capabilitiesAt..]) && TakesUpTo(w, at, l.end)
    ensures w.Some? ==> CapabilityFacts(w.value.scope, at, l) && PmkidFacts(w.value.scope, at, l) && GroupFacts(w.value.scope, at, l)
  {
    hide *;
    CapabilityShape(f);
    CapabilitiesStart(l, n);
    var o := l.capabilitiesAt;
    var m := SuiteBytes(scope, ctx, l.pairwise, l.akms);
    var v := if l.hasCapabilities then CapabilitiesOf(true, at, o) else Nothing;
    CapabilitiesParse(cs, [scope] + ctx, at, o);
    OptionalField(cs, f, 12, SUITE_BYTES, RSN_CAPABILITIES, 2, CapabilitiesOf(true, at, o), ctx, scope, at, o, n, m,
                  l.hasCapabilities, l.pmkidAt);
    w := None;
    if l.pmkidAt <= |at| {
      CapabilitiesKeep(scope, v, l.pairwise, l.akms);
      var s := scope[RsnCapabilities := v];
      w := FromPmkids(cs, f.rest, ctx, s, at, n, l);
      if w.Some? {
        StaysRead(cs, f.rest, ctx, s, at[l.pmkidAt..], RsnCapabilities, v);
        CapabilitiesRead(w.value.scope, at, l, v);
      }
    } else {
      NothingParses(w, at, l, l.pmkidAt);
    }
  }

  lemma AkmShape(f: FieldList)
    requires AkmTail(f)
    ensures IsCounted(f, 10, PAIRWISE_BYTES, IntBig(4)) && f.name == AkmSuiteCount && f.rest.name == AkmSuites
    ensures CapabilityTail(f.rest.rest) && IsItem(IntBig(4))
  {
  }

  lemma AkmStarts(l: Layout, at: bytes, n: int)
    requires AkmStage(l, at, n) && Climbs(l)
    ensures l.hasAkms == (n >= 10 + 4 * l.pairwise) && l.akms == Counter(l.hasAkms, at, l.akmAt)
    ensures l.akmList == l.akmAt + Opt(l.hasAkms, 2)
    ensures l.capabilitiesAt == l.akmAt + Opt(l.hasAkms, 2) + Total(IntBig(4), Counter(l.hasAkms, at, l.akmAt))
  {
  }

  lemma AkmsKeep(scope: Scope, a: nat, items: seq<Value>, p: nat)
    requires Says(scope, PairwiseCipherSuiteCount, p)
    ensures var next := Counted(scope, AkmSuiteCount, a, AkmSuites, items);
            && Says(next, PairwiseCipherSuiteCount, p) && Says(next, AkmSuiteCount, a)
            && Keeps(next, AkmSuiteCount, Num(a)) && Keeps(next, AkmSuites, Listing(items))
  {
    CountedHolds(scope, AkmSuiteCount, a, AkmSuites, items);
    CountedKeeps(scope, AkmSuiteCount, a, AkmSuites, items, PairwiseCipherSuiteCount, Num(p));
  }

  lemma AkmsRead(q: Scope, at: bytes, l: Layout, a: nat, items: seq<Value>)
    requires Keeps(q, AkmSuiteCount, Num(a)) && Keeps(q, AkmSuites, Listing(items))
    requires a == l.akms && items == Items(IntBig(4), at, l.akmList, a)
    ensures AkmFacts(q, at, l)
  {
  }

  lemma AkmsStay(cs: Codecs, f: FieldList, ctx: Context, scope: Scope, at: bytes, l: Layout, a: nat, items: seq<Value>)
    requires l.capabilitiesAt <= |at| && ParseFields(cs, f, ctx, scope, at[l.capabilitiesAt..]).Some?
    requires Keeps(scope, AkmSuiteCount, Num(a)) && Keeps(scope, AkmSuites, Listing(items))
    requires a == l.akms && items == Items(IntBig(4), at, l.akmList, a)
    ensures AkmFacts(ParseFields(cs, f, ctx, scope, at[l.capabilitiesAt..]).value.scope, at, l)
  {
    hide *;
    StaysRead(cs, f, ctx, scope, at[l.capabilitiesAt..], AkmSuiteCount, Num(a));
    StaysRead(cs, f, ctx, scope, at[l.capabilitiesAt..], AkmSuites, Listing(items));
    AkmsRead(ParseFields(cs, f, ctx, scope, at[l.capabilitiesAt..]).value.scope, at, l, a, items);
  }

  /** What comes behind the list of AKM suites. */
  lemma AfterAkms(cs: Codecs, f: FieldList, ctx: Context, scope: Scope, at: bytes, n: int, l: Layout, a: nat, items: seq<Value>)
    returns (w: Option<ParsedFields>)
    requires CapabilityTail(f) && f.con.thn == RSN_CAPABILITIES && HasLength(ctx, n) && l.capabilitiesAt <= |at|
    requires Climbs(l) && CapabilityStage(l, n) && PmkidStage(l, at, n) && GroupStage(l, n)
    requires Says(scope, PairwiseCipherSuiteCount, l.pairwise) && Unread(Counted(scope, AkmSuiteCount, a, AkmSuites, items), f)
    requires a == l.akms && items == Items(IntBig(4), at, l.akmList, a)
    ensures w == ParseFields(cs, f, ctx, Counted(scope, AkmSuiteCount, a, AkmSuites, items), at[l.capabilitiesAt..])
    ensures TakesUpTo(w, at, l.end)
    ensures w.Some? ==> AkmFacts(w.value.scope, at, l) && CapabilityFacts(w.value.scope, at, l)
    ensures w.Some? ==> PmkidFacts(w.value.scope, at, l) && GroupFacts(w.value.scope, at, l)
  {
    hide *;
    AkmsKeep(scope, a, items, l.pairwise);
    var s := Counted(scope, AkmSuiteCount, a, AkmSuites, items);
    w := FromCapabilities(cs, f, ctx, s, at, n, l);
    if w.Some? {
      AkmsStay(cs, f, ctx, s, at, l, a, items);
    }
  }

  lemma FromAkm(cs: Codecs, f: FieldList, ctx: Context, scope: Scope, at: bytes, n: int, l: Layout)
    returns (w: Option<ParsedFields>)
    requires AkmTail(f) && f.rest.rest.con.thn == RSN_CAPABILITIES && Unread(scope, f) && HasLength(ctx, n) && l.akmAt <= |at|
    requires Climbs(l) && AkmStage(l, at, n) && CapabilityStage(l, n) && PmkidStage(l, at, n) && GroupStage(l, n)
    requires Says(scope, PairwiseCipherSuiteCount, l.pairwise)
    ensures w == ParseFields(cs, f, ctx, scope, at[l.akmAt..]) && TakesUpTo(w, at, l.end)
    ensures w.Some? ==> AkmFacts(w.value.scope, at, l) && CapabilityFacts(w.value.scope, at, l)
    ensures w.Some? ==> PmkidFacts(w.value.scope, at, l) && GroupFacts(w.value.scope, at, l)
  {
    hide *;
    AkmShape(f);
    AkmStarts(l, at, n);
    var m := PairwiseBytes(scope, ctx, l.pairwise);
    var a, items := CountedList(cs, f, 10, PAIRWISE_BYTES, IntBig(4), ctx, scope, at, l.akmAt, n, m, l.hasAkms, l.capabilitiesAt);
    w := None;
    if l.capabilitiesAt <= |at| {
      w := AfterAkms(cs, f.rest.rest, ctx, scope, at, n, l, a, items);
    } else {
      NothingParses(w, at, l, l.capabilitiesAt);
    }
  }

  lemma PairwiseShape(f: FieldList)
    requires PairwiseTail(f)
    ensures IsCounted(f, 8, Lit(0), IntBig(4)) && f.name == PairwiseCipherSuiteCount && f.rest.name == PairwiseCipherSuites
    ensures AkmTail(f.rest.rest) && IsItem(IntBig(4))
  {
  }

  lemma PairwiseStarts(l: Layout, at: bytes, n: int)
    requires PairwiseStage(l, at, n) && Climbs(l)
    ensures l.hasPairwise == (n >= 8 + 0) && l.pairwise == Counter(l.hasPairwise, at, 6)
    ensures l.pairwiseList == 6 + Opt(l.hasPairwise, 2)
    ensures l.akmAt == 6 + Opt(l.hasPairwise, 2) + Total(IntBig(4), Counter(l.hasPairwise, at, 6))
  {
  }

  lemma NoLists(scope: Scope, ctx: Context)
    ensures Eval([scope] + ctx, Lit(0)) == Some(0)
  {
  }

  lemma PairwiseKeep(scope: Scope, p: nat, items: seq<Value>, group: Value)
    requires Keeps(scope, GroupCipherSuite, group)
    ensures var next := Counted(scope, PairwiseCipherSuiteCount, p, PairwiseCipherSuites, items);
            && Says(next, PairwiseCipherSuiteCount, p) && Keeps(next, PairwiseCipherSuiteCount, Num(p))
            && Keeps(next, PairwiseCipherSuites, Listing(items)) && Keeps(next, GroupCipherSuite, group)
  {
    CountedHolds(scope, PairwiseCipherSuiteCount, p, PairwiseCipherSuites, items);
    CountedKeeps(scope, PairwiseCipherSuiteCount, p, PairwiseCipherSuites, items, GroupCipherSuite, group);
  }

  lemma PairwiseStay(cs: Codecs, f: FieldList, ctx: Context, scope: Scope, input: bytes, group: Value, p: nat, items: seq<Value>)
    requires ParseFields(cs, f, ctx, scope, input).Some? && Keeps(scope, GroupCipherSuite, group)
    requires Keeps(scope, PairwiseCipherSuiteCount, Num(p)) && Keeps(scope, PairwiseCipherSuites, Listing(items))
    ensures var q := ParseFields(cs, f, ctx, scope, input).value.scope;
            && Keeps(q, GroupCipherSuite, group)
            && Keeps(q, PairwiseCipherSuiteCount, Num(p)) && Keeps(q, PairwiseCipherSuites, Listing(items))
  {
    hide *;
    StaysRead(cs, f, ctx, scope, input, GroupCipherSuite, group);
    StaysRead(cs, f, ctx, scope, input, PairwiseCipherSuiteCount, Num(p));
    StaysRead(cs, f, ctx, scope, input, PairwiseCipherSuites, Listing(items));
  }

  lemma AllRead(q: Scope, at: bytes, l: Layout, p: nat, items: seq<Value>)
    requires Keeps(q, GroupCipherSuite, SuiteOf(true, at, 2)) && Keeps(q, PairwiseCipherSuiteCount, Num(p))
    requires Keeps(q, PairwiseCipherSuites, Listing(items))
    requires p == l.pairwise && items == Items(IntBig(4), at, l.pairwiseList, p)
    requires AkmFacts(q, at, l) && CapabilityFacts(q, at, l) && PmkidFacts(q, at, l) && GroupFacts(q, at, l)
    ensures SuiteFacts(q, at, l)
  {
  }

  /** What comes behind the list of pairwise suites. */
  lemma AfterPairwise(cs: Codecs, f: FieldList, ctx: Context, scope: Scope, at: bytes, n: int, l: Layout, p: nat, items: seq<Value>)
    returns (w: Option<ParsedFields>)
    requires AkmTail(f) && f.rest.rest.con.thn == RSN_CAPABILITIES && HasLength(ctx, n) && l.akmAt <= |at|
    requires Climbs(l) && AkmStage(l, at, n) && CapabilityStage(l, n) && PmkidStage(l, at, n) && GroupStage(l, n)
    requires Unread(Counted(scope, PairwiseCipherSuiteCount, p, PairwiseCipherSuites, items), f)
    requires 6 <= |at| && Keeps(scope, GroupCipherSuite, SuiteOf(true, at, 2))
    requires p == l.pairwise && items == Items(IntBig(4), at, l.pairwiseList, p)
    ensures w == ParseFields(cs, f, ctx, Counted(scope, PairwiseCipherSuiteCount, p, PairwiseCipherSuites, items), at[l.akmAt..])
    ensures TakesUpTo(w, at, l.end)
    ensures w.Some? ==> SuiteFacts(w.value.scope, at, l)
  {
    hide *;
    var group := SuiteOf(true, at, 2);
    PairwiseKeep(scope, p, items, group);
    var s := Counted(scope, PairwiseCipherSuiteCount, p, PairwiseCipherSuites, items);
    w := FromAkm(cs, f, ctx, s, at, n, l);
    if w.Some? {
      PairwiseStay(cs, f, ctx, s, at[l.akmAt..], group, p, items);
      AllRead(w.value.scope, at, l, p, items);
    }
  }

  lemma FromPairwise(cs: Codecs, f: FieldList, ctx: Context, scope: Scope, at: bytes, n: int, l: Layout)
    returns (w: Option<ParsedFields>)
    requires PairwiseTail(f) && f.rest.rest.rest.rest.con.thn == RSN_CAPABILITIES && Unread(scope, f) && HasLength(ctx, n)
    requires 6 <= |at| && Climbs(l) && PairwiseStage(l, at, n) && AkmStage(l, at, n) && CapabilityStage(l, n)
    requires PmkidStage(l, at, n) && GroupStage(l, n) && Keeps(scope, GroupCipherSuite, SuiteOf(true, at, 2))
    ensures w == ParseFields(cs, f, ctx, scope, at[6..]) && TakesUpTo(w, at, l.end)
    ensures w.Some? ==> SuiteFacts(w.value.scope, at, l)
  {
    hide *;
    PairwiseShape(f);
    PairwiseStarts(l, at, n);
    NoLists(scope, ctx);
    var p, items := CountedList(cs, f, 8, Lit(0), IntBig(4), ctx, scope, at, 6, n, 0, l.hasPairwise, l.akmAt);
    w := None;
    if l.akmAt <= |at| {
      w := AfterPairwise(cs, f.rest.rest, ctx, scope, at, n, l, p, items);
    } else {
      NothingParses(w, at, l, l.akmAt);
    }
  }

  const RSN_FIRST_NAMES: seq<Name> := [Version, GroupCipherSuite, PairwiseCipherSuiteCount, PairwiseCipherSuites]

  const RSN_LATER_NAMES: seq<Name> := [
    AkmSuiteCount, AkmSuites, RsnCapabilities, PmkidCount, Pmkids, GroupManagementCipherSuite]

  lemma RsnNamesAre()
    ensures FieldNamesOf(RSN_FIELDS) == RSN_FIRST_NAMES + RSN_LATER_NAMES
  {
    var f2 := RSN_FIELDS.rest.rest;
    var f4 := f2.rest.rest;
    var f6 := f4.rest.rest;
    var f8 := f6.rest.rest;
    NamesTwoOn(RSN_FIELDS);
    NamesTwoOn(f2);
    NamesTwoOn(f4);
    NamesTwoOn(f6);
    NamesTwoOn(f8);
    assert f8.rest.rest == End;
  }

  lemma RsnLaterNames()
    ensures Distinct(RSN_LATER_NAMES)
  {
    hide Distinct, Apart;
    var a, b := [AkmSuiteCount, AkmSuites, RsnCapabilities, PmkidCount], [Pmkids, GroupManagementCipherSuite];
    FourDiffer(AkmSuiteCount, AkmSuites, RsnCapabilities, PmkidCount);
    TwoDiffer(Pmkids, GroupManagementCipherSuite);
    FourApart(AkmSuiteCount, AkmSuites, RsnCapabilities, PmkidCount, b);
    DistinctParts(a, b);
    assert RSN_LATER_NAMES == a + b;
  }

  lemma RsnNamesDiffer()
    ensures Distinct(RSN_FIRST_NAMES + RSN_LATER_NAMES)
  {
    hide Distinct, Apart;
    RsnLaterNames();
    FourDiffer(Version, GroupCipherSuite, PairwiseCipherSuiteCount, PairwiseCipherSuites);
    FourApart(Version, GroupCipherSuite, PairwiseCipherSuiteCount, PairwiseCipherSuites, RSN_LATER_NAMES);
    DistinctParts(RSN_FIRST_NAMES, RSN_LATER_NAMES);
  }

  lemma RsnUnread()
    ensures Unread(map[], RSN_FIELDS)
  {
    RsnNamesAre();
    RsnNamesDiffer();
  }

  /** Version and group cipher suite. */
  lemma RsnOpens(cs: Codecs, ctx: Context, at: bytes) returns (next: Scope)
    ensures |at| < 6 ==> ParseFields(cs, RSN_FIELDS, ctx, map[], at) == None
    ensures |at| >= 6 ==> ParseFields(cs, RSN_FIELDS, ctx, map[], at) == ParseFields(cs, RSN_FIELDS.rest.rest, ctx, next, at[6..])
    ensures |at| >= 6 ==> Unread(next, RSN_FIELDS.rest.rest) && Keeps(next, GroupCipherSuite, SuiteOf(true, at, 2))
    ensures |at| >= 6 ==> Keeps(next, Version, Num(Word16(at, 0)))
  {
    RsnUnread();
    next := map[];
    if |at| >= 2 {
      var version := Num(LittleEndian(at[..2]));
      assert at[0..2] == at[..2];
      Onwards(cs, RSN_FIELDS, ctx, map[], at, Parsed(version, at[2..], []));
      var s1: Scope := map[Version := version];
      SuiteParses(cs, [s1] + ctx, at, 2);
      if |at| >= 6 {
        var group := SuiteOf(true, at, 2);
        Onwards(cs, RSN_FIELDS.rest, ctx, s1, at[2..], Parsed(group, at[6..], []));
        next := s1[GroupCipherSuite := group];
      } else {
        StopsThere(cs, RSN_FIELDS.rest, ctx, s1, at[2..]);
      }
    }
  }

  /**
   The content of an RSN element of length `n` parses exactly when the bytes of its layout
   are there; it takes those bytes, and its record is what they mean.
   */
  lemma RsnParses(cs: Codecs, ctx: Context, at: bytes, n: int) returns (w: Option<ParsedFields>)
    requires HasLength(ctx, n)
    ensures w == ParseFields(cs, RSN_FIELDS, ctx, map[], at) && TakesUpTo(w, at, LayoutOf(at, n).end)
    ensures w.Some? ==> RsnFacts(w.value.scope, at, LayoutOf(at, n))
  {
    var l := LayoutOf(at, n);
    LayoutStages(at, n);
    RsnShape();
    var next := RsnOpens(cs, ctx, at);
    w := None;
    if |at| >= 6 {
      w := FromPairwise(cs, RSN_FIELDS.rest.rest, ctx, next, at, n, l);
      if w.Some? {
        StaysRead(cs, RSN_FIELDS.rest.rest, ctx, next, at[6..], Version, Num(Word16(at, 0)));
      }
    }
  }
}
