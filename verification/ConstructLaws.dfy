/** Rebuilding: for every grammar, building what was parsed gives back the input that was consumed. */
module ConstructLaws {
  import opened Common
  import opened BitOrder
  import opened MacText
  import opened Construct
  import opened FieldNames

  // ---- Contexts -------------------------------------------------------------------------

  ghost predicate ExtendsScope(full: Scope, part: Scope) {
    forall name :: name in part ==> name in full && full[name] == part[name]
  }

  /** Building sees whole records where parsing saw only the fields read so far. */
  ghost predicate Extends(full: Context, part: Context) {
    |full| == |part| && forall i :: 0 <= i < |part| ==> ExtendsScope(full[i], part[i])
  }

  lemma {:induction false} LookupExtends(full: Scope, part: Scope, path: seq<Name>)
    requires ExtendsScope(full, part) && Lookup(part, path).Some?
    ensures Lookup(full, path) == Lookup(part, path)
    decreases |path|
  {
  }

  lemma {:induction false} EvalExtends(full: Context, part: Context, e: Expr)
    requires Extends(full, part) && Eval(part, e).Some?
    ensures Eval(full, e) == Eval(part, e)
  {
    match e
    case Lit(_) =>
    case Ref(up, path) => LookupExtends(full[up], part[up], path);
    case Plus(a, b) => EvalExtends(full, part, a); EvalExtends(full, part, b);
    case Times(a, b) => EvalExtends(full, part, a); EvalExtends(full, part, b);
    case Third(a) => EvalExtends(full, part, a);
    case AtLeast(a, b) => EvalExtends(full, part, a); EvalExtends(full, part, b);
    case Equal(a, b) => EvalExtends(full, part, a); EvalExtends(full, part, b);
    case Differs(a, b) => EvalExtends(full, part, a); EvalExtends(full, part, b);
    case Both(a, b) => EvalExtends(full, part, a); EvalExtends(full, part, b);
    case OneOf(a, _) => EvalExtends(full, part, a);
  }

  // ---- Text ---------------------------------------------------------------------------------

  ghost predicate Inverts(e: Encoding) {
    && (forall raw :: e.decode(raw).Some? ==> e.encode(e.decode(raw).value) == Some(raw))
    && (forall text :: e.encode(text).Some? ==> e.decode(e.encode(text).value) == Some(text))
  }

  /** Encoding and decoding are inverse, and both byte orders of UTF-16 take the same room. */
  ghost predicate Lawful(cs: Codecs) {
    && Inverts(cs.utf8) && Inverts(cs.utf16le) && Inverts(cs.utf16be)
    && forall raw :: cs.utf16be.decode(raw).Some? ==> Fits(cs.utf16le, cs.utf16be.decode(raw).value, |raw|)
  }

  /** The text field rebuilds to its own bytes. */
  predicate TextRebuilds(cs: Codecs, raw: bytes) {
    DecodeText(cs, raw).Some? && EncodeText(cs, DecodeText(cs, raw).value, |raw|) == Some(raw)
  }

  predicate AllRebuild(cs: Codecs, texts: seq<bytes>) {
    forall i :: 0 <= i < |texts| ==> TextRebuilds(cs, texts[i])
  }

  lemma AllRebuildConcat(cs: Codecs, a: seq<bytes>, b: seq<bytes>)
    ensures AllRebuild(cs, a + b) <==> AllRebuild(cs, a) && AllRebuild(cs, b)
  {
    if AllRebuild(cs, a + b) {
      forall i | 0 <= i < |a| ensures TextRebuilds(cs, a[i]) { assert (a + b)[i] == a[i]; }
      forall i | 0 <= i < |b| ensures TextRebuilds(cs, b[i]) { assert (a + b)[|a| + i] == b[i]; }
    }
  }

  /** A text that decodes always encodes to as many bytes. */
  lemma EncodeKeepsLength(cs: Codecs, raw: bytes)
    requires Lawful(cs) && DecodeText(cs, raw).Some?
    ensures EncodeText(cs, DecodeText(cs, raw).value, |raw|).Some?
    ensures |EncodeText(cs, DecodeText(cs, raw).value, |raw|).value| == |raw|
  {
  }

  /**
   Exactly when a text field survives: it is UTF-8, or it is little-endian UTF-16
   and the UTF-8 form of the same text has another length.
   */
  lemma TextRebuildsExactlyWhen(cs: Codecs, raw: bytes)
    requires Lawful(cs) && DecodeText(cs, raw).Some?
    ensures TextRebuilds(cs, raw) <==>
            || cs.utf8.decode(raw).Some?
            || (cs.utf16le.decode(raw).Some? && !Fits(cs.utf8, cs.utf16le.decode(raw).value, |raw|))
  {
  }

  /** The failing case on one text: two bytes that are UTF-16 but not UTF-8 come back as the UTF-8 form. */
  lemma Utf16TextIsRewritten(cs: Codecs)
    requires Lawful(cs)
    requires cs.utf8.decode([0x80, 0x00]).None? && cs.utf16le.decode([0x80, 0x00]) == Some([0x80 as char])
    requires cs.utf8.encode([0x80 as char]) == Some([0xC2, 0x80])
    ensures DecodeText(cs, [0x80, 0x00]) == Some([0x80 as char])
    ensures EncodeText(cs, [0x80 as char], 2) == Some([0xC2, 0x80])
    ensures !TextRebuilds(cs, [0x80, 0x00])
  {
    var raw: bytes := [0x80, 0x00];
    assert [0xC2, 0x80][0] != raw[0];
  }

  // ---- Leaves --------------------------------------------------------------------------------

  lemma RateRoundTrip(b: byte)
    ensures RateOf(b).Rate? && RateByteOf(RateOf(b).mbps, RateOf(b).basic) == b
  {
    var raw := b % 128;
    assert raw as real / 2.0 * 2.0 == raw as real;
  }

  lemma {:induction false} ParseBitsKeeps(bits: BitList, s: seq<bit>, scope: Scope, name: Name)
    requires |s| == BitWidth(bits) && name in scope && ParseBits(bits, s, scope).Some?
    ensures var r := ParseBits(bits, s, scope).value;
            name in r && r[name] == scope[name]
    decreases bits
  {
    if bits.Bits? {
      ParseBitsKeeps(bits.rest, s[bits.width..], scope[bits.name := Num(FieldOfBits(s[..bits.width], bits.flip))], name);
    }
  }

  lemma {:induction false} BitsRoundTrip(bits: BitList, s: seq<bit>, scope: Scope)
    requires |s| == BitWidth(bits) && ParseBits(bits, s, scope).Some?
    ensures BuildBits(bits, ParseBits(bits, s, scope).value) == Some(s)
    decreases bits
  {
    if bits.Bits? {
      var head, tail := s[..bits.width], s[bits.width..];
      var scope' := scope[bits.name := Num(FieldOfBits(head, bits.flip))];
      ParseBitsKeeps(bits.rest, tail, scope', bits.name);
      BitsRoundTrip(bits.rest, tail, scope');
      FromBitsBound(head);
      FlipTwice(head);
      ToFromBits(head);
      assert head + tail == s;
    }
  }

  // ---- The round trip ---------------------------------------------------------------------------

  /** `out` is as long as what lies before `rest`, and is exactly that unless a text field changed. */
  ghost predicate Rebuilt(cs: Codecs, input: bytes, rest: bytes, texts: seq<bytes>, out: Option<bytes>) {
    && |rest| <= |input|
    && rest == input[|input| - |rest|..]
    && out.Some?
    && |out.value| == |input| - |rest|
    && (out.value == input[..|input| - |rest|] <==> AllRebuild(cs, texts))
  }

  lemma RebuiltNothing(cs: Codecs, input: bytes)
    ensures Rebuilt(cs, input, input, [], Some([]))
  {
  }

  lemma RebuiltExact(cs: Codecs, input: bytes, n: nat, out: bytes)
    requires n <= |input| && out == input[..n]
    ensures Rebuilt(cs, input, input[n..], [], Some(out))
  {
  }

  /** Rebuilding composes over consecutive parts. */
  lemma RebuiltThen(cs: Codecs, input: bytes, mid: bytes, rest: bytes, t1: seq<bytes>, t2: seq<bytes>, o1: bytes, o2: bytes)
    requires Rebuilt(cs, input, mid, t1, Some(o1)) && Rebuilt(cs, mid, rest, t2, Some(o2))
    ensures Rebuilt(cs, input, rest, t1 + t2, Some(o1 + o2))
  {
    AllRebuildConcat(cs, t1, t2);
    var n, m := |input| - |mid|, |mid| - |rest|;
    assert input[..n + m] == input[..n] + mid[..m];
    if o1 + o2 == input[..n + m] {
      assert o1 == (o1 + o2)[..n] && o2 == (o1 + o2)[n..];
      assert input[..n] == input[..n + m][..n] && mid[..m] == input[..n + m][n..];
    }
  }

  /** Later fields leave earlier ones alone. */
  lemma {:induction false} FieldsKeep(cs: Codecs, fields: FieldList, ctx: Context, scope: Scope, input: bytes)
    requires ParseFields(cs, fields, ctx, scope, input).Some?
    ensures ExtendsScope(ParseFields(cs, fields, ctx, scope, input).value.scope, scope)
    decreases fields
  {
    if fields.Field? {
      var p := Parse(cs, fields.con, [scope] + ctx, input).value;
      FieldsKeep(cs, fields.rest, ctx, scope[fields.name := p.value], p.rest);
    }
  }

  ghost predicate Ready(cs: Codecs, ctx: Context, full: Context) {
    Lawful(cs) && Extends(full, ctx)
  }

  lemma BytesRoundTrip(cs: Codecs, length: Expr, ctx: Context, full: Context, input: bytes)
    requires Extends(full, ctx) && Parse(cs, FixedBytes(length), ctx, input).Some?
    ensures var p := Parse(cs, FixedBytes(length), ctx, input).value;
            Rebuilt(cs, input, p.rest, p.texts, Build(cs, FixedBytes(length), full, p.value))
  {
    EvalExtends(full, ctx, length);
    RebuiltExact(cs, input, Eval(ctx, length).value, input[..Eval(ctx, length).value]);
  }

  lemma GreedyBytesRoundTrip(cs: Codecs, ctx: Context, full: Context, input: bytes)
    ensures var p := Parse(cs, GreedyBytes, ctx, input).value;
            Rebuilt(cs, input, p.rest, p.texts, Build(cs, GreedyBytes, full, p.value))
  {
    assert input[..|input|] == input;
    RebuiltExact(cs, input, |input|, input);
  }

  lemma LittleRoundTrip(cs: Codecs, width: nat, ctx: Context, full: Context, input: bytes)
    requires width <= |input|
    ensures var p := Parse(cs, IntLittle(width), ctx, input).value;
            Rebuilt(cs, input, p.rest, p.texts, Build(cs, IntLittle(width), full, p.value))
  {
    LittleEndianRoundTrip(input[..width]);
    RebuiltExact(cs, input, width, input[..width]);
  }

  lemma BigRoundTrip(cs: Codecs, width: nat, ctx: Context, full: Context, input: bytes)
    requires width <= |input|
    ensures var p := Parse(cs, IntBig(width), ctx, input).value;
            Rebuilt(cs, input, p.rest, p.texts, Build(cs, IntBig(width), full, p.value))
  {
    BigEndianRoundTrip(input[..width]);
    RebuiltExact(cs, input, width, input[..width]);
  }

  lemma RateByteRoundTrip(cs: Codecs, ctx: Context, full: Context, input: bytes)
    requires input != []
    ensures var p := Parse(cs, RateByte, ctx, input).value;
            Rebuilt(cs, input, p.rest, p.texts, Build(cs, RateByte, full, p.value))
  {
    RateRoundTrip(input[0]);
    RebuiltExact(cs, input, 1, [input[0]]);
  }

  lemma MacRoundTrip(cs: Codecs, ctx: Context, full: Context, input: bytes)
    requires |input| >= 6
    ensures var p := Parse(cs, MacAddress, ctx, input).value;
            Rebuilt(cs, input, p.rest, p.texts, Build(cs, MacAddress, full, p.value))
  {
    MacPartsRoundTrip(input[..6]);
    RebuiltExact(cs, input, 6, input[..6]);
  }

  lemma StringRoundTrip(cs: Codecs, length: Expr, ctx: Context, full: Context, input: bytes)
    requires Ready(cs, ctx, full) && Parse(cs, FallbackString(length), ctx, input).Some?
    ensures var p := Parse(cs, FallbackString(length), ctx, input).value;
            Rebuilt(cs, input, p.rest, p.texts, Build(cs, FallbackString(length), full, p.value))
  {
    EvalExtends(full, ctx, length);
    var raw := input[..Eval(ctx, length).value];
    EncodeKeepsLength(cs, raw);
    assert AllRebuild(cs, [raw]) <==> TextRebuilds(cs, raw) by { assert [raw][0] == raw; }
  }

  lemma BitStructParses(cs: Codecs, swapped: bool, bits: BitList, ctx: Context, input: bytes) returns (n: nat)
    requires Parse(cs, Construct.BitStruct(swapped, bits), ctx, input).Some?
    ensures 8 * n == BitWidth(bits) && n <= |input| && ParseBits(bits, Stream(input[..n], swapped), map[]).Some?
    ensures Parse(cs, Construct.BitStruct(swapped, bits), ctx, input)
         == Some(Parsed(Rec(ParseBits(bits, Stream(input[..n], swapped), map[]).value), input[n..], []))
  {
    n := BitWidth(bits) / 8;
  }

  lemma BitStructBuilds(cs: Codecs, swapped: bool, bits: BitList, full: Context, scope: Scope, n: nat)
    requires BitWidth(bits) == 8 * n && BuildBits(bits, scope).Some?
    ensures Build(cs, Construct.BitStruct(swapped, bits), full, Rec(scope))
         == Some(Unstream(BuildBits(bits, scope).value, swapped))
  {
  }

  lemma BitStructRoundTrip(cs: Codecs, swapped: bool, bits: BitList, ctx: Context, full: Context, input: bytes)
    requires Parse(cs, Construct.BitStruct(swapped, bits), ctx, input).Some?
    ensures var g := Construct.BitStruct(swapped, bits);
            var p := Parse(cs, g, ctx, input).value;
            Rebuilt(cs, input, p.rest, p.texts, Build(cs, g, full, p.value))
  {
    var n := BitStructParses(cs, swapped, bits, ctx, input);
    var s := Stream(input[..n], swapped);
    BitsRoundTrip(bits, s, map[]);
    BitStructBuilds(cs, swapped, bits, full, ParseBits(bits, s, map[]).value, n);
    UnstreamStream(input[..n], swapped);
    RebuiltExact(cs, input, n, input[..n]);
  }

  /**
   For every grammar and input: building what was parsed succeeds, writes as many
   bytes as were consumed, and writes exactly those bytes if and only if every text
   field among them rebuilds.
   */
  lemma {:induction false} RoundTrip(cs: Codecs, g: Con, ctx: Context, full: Context, input: bytes)
    requires Ready(cs, ctx, full) && Parse(cs, g, ctx, input).Some?
    ensures var p := Parse(cs, g, ctx, input).value;
            Rebuilt(cs, input, p.rest, p.texts, Build(cs, g, full, p.value))
    decreases g, 0, 0
  {
    match g
    case GreedyBytes => GreedyBytesRoundTrip(cs, ctx, full, input);
    case FixedBytes(length) => BytesRoundTrip(cs, length, ctx, full, input);
    case IntLittle(width) => LittleRoundTrip(cs, width, ctx, full, input);
    case IntBig(width) => BigRoundTrip(cs, width, ctx, full, input);
    case RateByte => RateByteRoundTrip(cs, ctx, full, input);
    case Computed(_) => RebuiltNothing(cs, input);
    case Pass => RebuiltNothing(cs, input);
    case MacAddress => MacRoundTrip(cs, ctx, full, input);
    case FallbackString(length) => StringRoundTrip(cs, length, ctx, full, input);
    case BitStruct(swapped, bits) => BitStructRoundTrip(cs, swapped, bits, ctx, full, input);
    case Struct(fields) => FieldsRoundTrip(cs, fields, ctx, full, map[], ParseFields(cs, fields, ctx, map[], input).value.scope, input);
    case Array(count, item) =>
      EvalExtends(full, ctx, count);
      ManyHasCount(cs, item, ctx, Eval(ctx, count).value, input);
      ManyRoundTrip(cs, item, ctx, full, Eval(ctx, count).value, input, Parse(cs, g, ctx, input).value);
    case GreedyRange(item) => GreedyRoundTrip(cs, item, ctx, full, input);
    case IfThenElse(cond, thn, els) =>
      EvalExtends(full, ctx, cond);
      if Eval(ctx, cond).value != 0 { RoundTrip(cs, thn, ctx, full, input); } else { RoundTrip(cs, els, ctx, full, input); }
    case Switch(key, cases) =>
      EvalExtends(full, ctx, key);
      CaseRoundTrip(cs, cases, Eval(ctx, key).value, ctx, full, input);
  }

  lemma {:induction false} FieldsRoundTrip(cs: Codecs, fields: FieldList, ctx: Context, full: Context, scope: Scope,
                                           record: Scope, input: bytes)
    requires Lawful(cs) && Extends(full, ctx)
    requires ParseFields(cs, fields, ctx, scope, input).Some?
    requires ExtendsScope(record, ParseFields(cs, fields, ctx, scope, input).value.scope)
    ensures var q := ParseFields(cs, fields, ctx, scope, input).value;
            Rebuilt(cs, input, q.rest, q.texts, BuildFields(cs, fields, full, record))
    decreases fields, 0, 0
  {
    match fields
    case End => RebuiltNothing(cs, input);
    case Field(name, con, rest) =>
      var p := Parse(cs, con, [scope] + ctx, input).value;
      var scope' := scope[name := p.value];
      var q := ParseFields(cs, rest, ctx, scope', p.rest).value;
      FieldsKeep(cs, rest, ctx, scope', p.rest);
      assert name in scope' && record[name] == p.value;
      ScopeExtends(full, ctx, record, scope);
      RoundTrip(cs, con, [scope] + ctx, [record] + full, input);
      FieldsRoundTrip(cs, rest, ctx, full, scope', record, p.rest);
      RebuiltThen(cs, input, p.rest, q.rest, p.texts, q.texts,
                  Build(cs, con, [record] + full, p.value).value, BuildFields(cs, rest, full, record).value);
  }

  lemma ScopeExtends(full: Context, ctx: Context, record: Scope, scope: Scope)
    requires Extends(full, ctx) && ExtendsScope(record, scope)
    ensures Extends([record] + full, [scope] + ctx)
  {
  }

  lemma {:induction false} CaseRoundTrip(cs: Codecs, cases: Cases, key: int, ctx: Context, full: Context, input: bytes)
    requires Lawful(cs) && Extends(full, ctx)
    requires ParseCase(cs, cases, key, ctx, input).Some?
    ensures var p := ParseCase(cs, cases, key, ctx, input).value;
            Rebuilt(cs, input, p.rest, p.texts, BuildCase(cs, cases, key, full, p.value))
    decreases cases, 0, 0
  {
    if cases.Otherwise? || cases.key == key {
      RoundTrip(cs, cases.con, ctx, full, input);
    } else {
      CaseRoundTrip(cs, cases.rest, key, ctx, full, input);
    }
  }

  lemma {:induction false} ManyHasCount(cs: Codecs, item: Con, ctx: Context, n: nat, input: bytes)
    requires ParseMany(cs, item, ctx, n, input).Some?
    ensures |ParseMany(cs, item, ctx, n, input).value.value.items| == n
    decreases n
  {
    if n > 0 {
      ManyHasCount(cs, item, ctx, n - 1, Parse(cs, item, ctx, input).value.rest);
    }
  }

  lemma {:induction false} ManyRoundTrip(cs: Codecs, item: Con, ctx: Context, full: Context, n: nat, input: bytes, r: Parsed)
    requires Ready(cs, ctx, full) && ParseMany(cs, item, ctx, n, input) == Some(r) && r.value.Listing?
    ensures Rebuilt(cs, input, r.rest, r.texts, BuildMany(cs, item, full, r.value.items))
    decreases item, 1, n
  {
    if n == 0 {
      RebuiltNothing(cs, input);
    } else {
      var p, q := ManyStep(cs, item, ctx, n, input);
      assert Rebuilt(cs, p.rest, q.rest, q.texts, BuildMany(cs, item, full, q.value.items)) by {
        ManyRoundTrip(cs, item, ctx, full, n - 1, p.rest, q);
      }
      RoundTrip(cs, item, ctx, full, input);
      ItemsRebuilt(cs, item, full, input, p, q);
    }
  }

  /** The first item, and the others after it. */
  lemma ManyStep(cs: Codecs, item: Con, ctx: Context, n: nat, input: bytes) returns (p: Parsed, q: Parsed)
    requires n > 0 && ParseMany(cs, item, ctx, n, input).Some?
    ensures Parse(cs, item, ctx, input) == Some(p) && ParseMany(cs, item, ctx, n - 1, p.rest) == Some(q) && q.value.Listing?
    ensures ParseMany(cs, item, ctx, n, input) == Some(Parsed(Listing([p.value] + q.value.items), q.rest, p.texts + q.texts))
  {
    p := Parse(cs, item, ctx, input).value;
    q := ParseMany(cs, item, ctx, n - 1, p.rest).value;
  }

  lemma {:induction false} GreedyRoundTrip(cs: Codecs, item: Con, ctx: Context, full: Context, input: bytes)
    requires Ready(cs, ctx, full) && ParseGreedy(cs, item, ctx, input).Some?
    ensures var p := ParseGreedy(cs, item, ctx, input).value;
            Rebuilt(cs, input, p.rest, p.texts, BuildMany(cs, item, full, p.value.items))
    decreases item, 1, |input|
  {
    if Parse(cs, item, ctx, input).None? {
      RebuiltNothing(cs, input);
    } else {
      var p := Parse(cs, item, ctx, input).value;
      var q := ParseGreedy(cs, item, ctx, p.rest).value;
      RoundTrip(cs, item, ctx, full, input);
      GreedyRoundTrip(cs, item, ctx, full, p.rest);
      ItemsRebuilt(cs, item, full, input, p, q);
    }
  }

  lemma ItemsRebuilt(cs: Codecs, item: Con, full: Context, input: bytes, p: Parsed, q: Parsed)
    requires q.value.Listing? && Rebuilt(cs, input, p.rest, p.texts, Build(cs, item, full, p.value))
    requires Rebuilt(cs, p.rest, q.rest, q.texts, BuildMany(cs, item, full, q.value.items))
    ensures Rebuilt(cs, input, q.rest, p.texts + q.texts, BuildMany(cs, item, full, [p.value] + q.value.items))
  {
    var items := [p.value] + q.value.items;
    assert items[1..] == q.value.items;
    RebuiltThen(cs, input, p.rest, q.rest, p.texts, q.texts,
                Build(cs, item, full, p.value).value, BuildMany(cs, item, full, q.value.items).value);
  }
}
