/**
 The construct library's combinators, as far as the frame grammar uses them: a
 grammar is a value, parsing and building interpret it.
 */
module Construct {
  import opened Common
  import opened BitOrder
  import opened MacText
  import opened FieldNames

  // ---- Values and contexts ------------------------------------------------------------

  /** What parsing yields; flags are the numbers 0 and 1. */
  datatype Value =
    | Nothing
    | Num(n: int)
    | Data(data: bytes)
    | Text(text: string)
    | Rate(mbps: real, basic: bool)
    | Listing(items: seq<Value>)
    | Rec(fields: Scope)

  type Scope = map<Name, Value>

  /** The fields of the current struct, then of the structs around it. */
  type Context = seq<Scope>

  /** Expressions over earlier fields: `Ref(u, path)` is `this`, `u` times `._`, then the names of the path. */
  datatype Expr =
    | Lit(n: int)
    | Ref(up: nat, path: seq<Name>)
    | Plus(a: Expr, b: Expr)
    | Times(a: Expr, b: Expr)
    | Third(a: Expr)
    | AtLeast(a: Expr, b: Expr)
    | Equal(a: Expr, b: Expr)
    | Differs(a: Expr, b: Expr)
    | Both(a: Expr, b: Expr)
    | OneOf(a: Expr, among: set<int>)

  function Lookup(scope: Scope, path: seq<Name>): Option<int>
    decreases |path|
  {
    if path == [] || path[0] !in scope then None
    else if |path| == 1 then (if scope[path[0]].Num? then Some(scope[path[0]].n) else None)
    else if scope[path[0]].Rec? then Lookup(scope[path[0]].fields, path[1..])
    else None
  }

  function Truth(b: bool): int {
    if b then 1 else 0
  }

  /** None is the exception of reading a field that is not there. */
  function Eval(ctx: Context, e: Expr): Option<int> {
    match e
    case Lit(n) => Some(n)
    case Ref(up, path) => if up < |ctx| then Lookup(ctx[up], path) else None
    case Plus(a, b) => (match (Eval(ctx, a), Eval(ctx, b)) case (Some(x), Some(y)) => Some(x + y) case _ => None)
    case Times(a, b) => (match (Eval(ctx, a), Eval(ctx, b)) case (Some(x), Some(y)) => Some(x * y) case _ => None)
    case Third(a) => (match Eval(ctx, a) case Some(x) => Some(x / 3) case None => None)
    case AtLeast(a, b) => (match (Eval(ctx, a), Eval(ctx, b)) case (Some(x), Some(y)) => Some(Truth(x >= y)) case _ => None)
    case Equal(a, b) => (match (Eval(ctx, a), Eval(ctx, b)) case (Some(x), Some(y)) => Some(Truth(x == y)) case _ => None)
    case Differs(a, b) => (match (Eval(ctx, a), Eval(ctx, b)) case (Some(x), Some(y)) => Some(Truth(x != y)) case _ => None)
    case Both(a, b) =>
      (match (Eval(ctx, a), Eval(ctx, b)) case (Some(x), Some(y)) => Some(Truth(x != 0 && y != 0)) case _ => None)
    case OneOf(a, among) => (match Eval(ctx, a) case Some(x) => Some(Truth(x in among)) case None => None)
  }

  // ---- Grammars -------------------------------------------------------------------------

  /** The unsigned fields of a bit struct; `flip` wraps one in SwapBitsAdapter. */
  datatype BitList = NoBits | Bits(name: Name, width: nat, flip: bool, rest: BitList)

  datatype Con =
    | GreedyBytes
    | FixedBytes(length: Expr)
    | IntLittle(width: nat)
    | IntBig(width: nat)
    | MacAddress
    | RateByte
    | FallbackString(length: Expr)
    | BitStruct(swapped: bool, bits: BitList)
    | Struct(fields: FieldList)
    | Array(count: Expr, item: Con)
    | GreedyRange(item: Con)
    | IfThenElse(cond: Expr, thn: Con, els: Con)
    | Switch(key: Expr, cases: Cases)
    | Computed(n: int)
    | Pass

  datatype FieldList = End | Field(name: Name, con: Con, rest: FieldList)

  datatype Cases = Otherwise(con: Con) | Case(key: int, con: Con, rest: Cases)

  // ---- Text ---------------------------------------------------------------------------------

  /** One of the interpreter's text encodings. */
  datatype Encoding = Encoding(decode: bytes -> Option<string>, encode: string -> Option<bytes>)

  /** The encodings FallbackStringAdapter tries, in this order. */
  datatype Codecs = Codecs(utf8: Encoding, utf16le: Encoding, utf16be: Encoding)

  /** Without a codec that fits, decoding fails: the byte-string fallback reads an attribute never set. */
  function DecodeText(cs: Codecs, raw: bytes): Option<string> {
    if cs.utf8.decode(raw).Some? then cs.utf8.decode(raw)
    else if cs.utf16le.decode(raw).Some? then cs.utf16le.decode(raw)
    else cs.utf16be.decode(raw)
  }

  predicate Fits(e: Encoding, text: string, length: int) {
    e.encode(text).Some? && |e.encode(text).value| == length
  }

  function EncodeText(cs: Codecs, text: string, length: int): Option<bytes> {
    if Fits(cs.utf8, text, length) then cs.utf8.encode(text)
    else if Fits(cs.utf16le, text, length) then cs.utf16le.encode(text)
    else if Fits(cs.utf16be, text, length) then cs.utf16be.encode(text)
    else None
  }

  // ---- Leaves --------------------------------------------------------------------------------

  function BitWidth(bits: BitList): (n: nat) {
    if bits.NoBits? then 0 else bits.width + BitWidth(bits.rest)
  }

  /** The value of one field out of its bits. */
  function FieldOfBits(s: seq<bit>, flip: bool): nat {
    if flip then Flip(FromBits(s), |s|) else FromBits(s)
  }

  /** Two fields of one name are not a grammar: the result is then None, here and in structs. */
  function ParseBits(bits: BitList, s: seq<bit>, scope: Scope): Option<Scope>
    requires |s| == BitWidth(bits)
    decreases bits
  {
    match bits
    case NoBits => Some(scope)
    case Bits(name, width, flip, rest) =>
      if name in scope then None
      else ParseBits(rest, s[width..], scope[name := Num(FieldOfBits(s[..width], flip))])
  }

  function BuildBits(bits: BitList, scope: Scope): (r: Option<seq<bit>>)
    ensures r.Some? ==> |r.value| == BitWidth(bits)
    decreases bits
  {
    match bits
    case NoBits => Some([])
    case Bits(name, width, flip, rest) =>
      if name !in scope || !scope[name].Num? || !(0 <= scope[name].n < Pow2(width)) then None
      else
        var n: nat := scope[name].n;
        match BuildBits(rest, scope)
        case None => None
        case Some(more) => Some(ToBits(if flip then Flip(n, width) else n, width) + more)
  }

  function RateOf(b: byte): Value {
    Rate((b % 128) as real / 2.0, b >= 128)
  }

  /** The rate in half megabits, truncated, with the top bit for a basic rate. */
  function RateByteOf(mbps: real, basic: bool): int {
    var raw := (mbps * 2.0).Floor;
    if basic && 0 <= raw < 128 then raw + 128 else raw
  }

  // ---- Parsing ---------------------------------------------------------------------------------

  /** A parse result; `texts` are the bytes of the text fields read, in order. */
  datatype Parsed = Parsed(value: Value, rest: bytes, texts: seq<bytes>)

  datatype ParsedFields = ParsedFields(scope: Scope, rest: bytes, texts: seq<bytes>)

  /** The first `n` bytes, if they are there; a negative length is an error. */
  function Take(input: bytes, n: int): Option<(bytes, bytes)> {
    if 0 <= n <= |input| then Some((input[..n], input[n..])) else None
  }

  function Leaf(taken: Option<(bytes, bytes)>, value: bytes -> Value): Option<Parsed> {
    match taken
    case None => None
    case Some((raw, rest)) => Some(Parsed(value(raw), rest, []))
  }

  function Parse(cs: Codecs, g: Con, ctx: Context, input: bytes): (r: Option<Parsed>)
    decreases g, 0, 0
  {
    match g
    case GreedyBytes => Some(Parsed(Data(input), [], []))
    case FixedBytes(length) =>
      (match Eval(ctx, length)
       case None => None
       case Some(n) => Leaf(Take(input, n), raw => Data(raw)))
    case IntLittle(width) => Leaf(Take(input, width), raw => Num(LittleEndian(raw)))
    case IntBig(width) => Leaf(Take(input, width), raw => Num(BigEndian(raw)))
    case MacAddress => Leaf(Take(input, 6), raw => Text(FormatMac(raw)))
    case RateByte => if input == [] then None else Some(Parsed(RateOf(input[0]), input[1..], []))
    case FallbackString(length) =>
      (match Eval(ctx, length)
       case None => None
       case Some(n) =>
         match Take(input, n)
         case None => None
         case Some((raw, rest)) =>
           match DecodeText(cs, raw)
           case None => None
           case Some(text) => Some(Parsed(Text(text), rest, [raw])))
    case BitStruct(swapped, bits) =>
      var w := BitWidth(bits);
      if w % 8 != 0 || w / 8 > |input| then None
      else
        (match ParseBits(bits, Stream(input[..w / 8], swapped), map[])
         case None => None
         case Some(scope) => Some(Parsed(Rec(scope), input[w / 8..], [])))
    case Struct(fields) =>
      (match ParseFields(cs, fields, ctx, map[], input)
       case None => None
       case Some(p) => Some(Parsed(Rec(p.scope), p.rest, p.texts)))
    case Array(count, item) =>
      (match Eval(ctx, count)
       case None => None
       case Some(n) => if n < 0 then None else ParseMany(cs, item, ctx, n, input))
    case GreedyRange(item) => ParseGreedy(cs, item, ctx, input)
    case IfThenElse(cond, thn, els) =>
      (match Eval(ctx, cond)
       case None => None
       case Some(c) => if c != 0 then Parse(cs, thn, ctx, input) else Parse(cs, els, ctx, input))
    case Switch(key, cases) =>
      (match Eval(ctx, key)
       case None => None
       case Some(k) => ParseCase(cs, cases, k, ctx, input))
    case Computed(n) => Some(Parsed(Num(n), input, []))
    case Pass => Some(Parsed(Nothing, input, []))
  }

  function ParseFields(cs: Codecs, fields: FieldList, ctx: Context, scope: Scope, input: bytes): (r: Option<ParsedFields>)
    decreases fields, 0, 0
  {
    match fields
    case End => Some(ParsedFields(scope, input, []))
    case Field(name, con, rest) =>
      if name in scope then None
      else
      match Parse(cs, con, [scope] + ctx, input)
      case None => None
      case Some(p) =>
        match ParseFields(cs, rest, ctx, scope[name := p.value], p.rest)
        case None => None
        case Some(q) => Some(ParsedFields(q.scope, q.rest, p.texts + q.texts))
  }

  function ParseCase(cs: Codecs, cases: Cases, key: int, ctx: Context, input: bytes): (r: Option<Parsed>)
    decreases cases, 0, 0
  {
    match cases
    case Otherwise(con) => Parse(cs, con, ctx, input)
    case Case(k, con, rest) =>
      if k == key then Parse(cs, con, ctx, input) else ParseCase(cs, rest, key, ctx, input)
  }

  /** Exactly `n` items. */
  function ParseMany(cs: Codecs, item: Con, ctx: Context, n: nat, input: bytes): (r: Option<Parsed>)
    ensures r.Some? ==> r.value.value.Listing?
    decreases item, 1, n
  {
    if n == 0 then Some(Parsed(Listing([]), input, []))
    else
      match Parse(cs, item, ctx, input)
      case None => None
      case Some(p) =>
        match ParseMany(cs, item, ctx, n - 1, p.rest)
        case None => None
        case Some(q) => Some(Parsed(Listing([p.value] + q.value.items), q.rest, p.texts + q.texts))
  }

  /**
   Items as long as they parse; the first failing one is rewound and left over.
   An item that takes no input would repeat for ever: the result is then None.
   */
  function ParseGreedy(cs: Codecs, item: Con, ctx: Context, input: bytes): (r: Option<Parsed>)
    ensures r.Some? ==> r.value.value.Listing?
    decreases item, 1, |input|
  {
    match Parse(cs, item, ctx, input)
    case None => Some(Parsed(Listing([]), input, []))
    case Some(p) =>
      if |p.rest| >= |input| then None
      else
        match ParseGreedy(cs, item, ctx, p.rest)
        case None => None
        case Some(q) => Some(Parsed(Listing([p.value] + q.value.items), q.rest, p.texts + q.texts))
  }

  // ---- Building -----------------------------------------------------------------------------------

  /** Building writes a value; None is an exception. */
  function Build(cs: Codecs, g: Con, ctx: Context, v: Value): (r: Option<bytes>)
    decreases g, 0, 0
  {
    match g
    case GreedyBytes => if v.Data? then Some(v.data) else None
    case FixedBytes(length) =>
      (match Eval(ctx, length)
       case None => None
       case Some(n) => if v.Data? && |v.data| == n then Some(v.data) else None)
    case IntLittle(width) =>
      if v.Num? && 0 <= v.n < Pow2(8 * width) then Some(ToLittleEndian(v.n, width)) else None
    case IntBig(width) =>
      if v.Num? && 0 <= v.n < Pow2(8 * width) then Some(ToBigEndian(v.n, width)) else None
    case MacAddress => if v.Text? then ParseMac(v.text) else None
    case RateByte =>
      if v.Rate? && 0 <= RateByteOf(v.mbps, v.basic) < 256 then Some([RateByteOf(v.mbps, v.basic)]) else None
    case FallbackString(length) =>
      (match Eval(ctx, length)
       case None => None
       case Some(n) => if v.Text? then EncodeText(cs, v.text, n) else None)
    case BitStruct(swapped, bits) =>
      if !v.Rec? || BitWidth(bits) % 8 != 0 then None
      else
        (match BuildBits(bits, v.fields)
         case None => None
         case Some(s) => Some(Unstream(s, swapped)))
    case Struct(fields) => if v.Rec? then BuildFields(cs, fields, ctx, v.fields) else None
    case Array(count, item) =>
      (match Eval(ctx, count)
       case None => None
       case Some(n) => if v.Listing? && |v.items| == n then BuildMany(cs, item, ctx, v.items) else None)
    case GreedyRange(item) => if v.Listing? then BuildMany(cs, item, ctx, v.items) else None
    case IfThenElse(cond, thn, els) =>
      (match Eval(ctx, cond)
       case None => None
       case Some(c) => if c != 0 then Build(cs, thn, ctx, v) else Build(cs, els, ctx, v))
    case Switch(key, cases) =>
      (match Eval(ctx, key)
       case None => None
       case Some(k) => BuildCase(cs, cases, k, ctx, v))
    case Computed(_) => Some([])
    case Pass => Some([])
  }

  /** Every field is built with the whole record in scope. */
  function BuildFields(cs: Codecs, fields: FieldList, ctx: Context, scope: Scope): (r: Option<bytes>)
    decreases fields, 0, 0
  {
    match fields
    case End => Some([])
    case Field(name, con, rest) =>
      match Build(cs, con, [scope] + ctx, if name in scope then scope[name] else Nothing)
      case None => None
      case Some(out) =>
        match BuildFields(cs, rest, ctx, scope)
        case None => None
        case Some(outs) => Some(out + outs)
  }

  function BuildCase(cs: Codecs, cases: Cases, key: int, ctx: Context, v: Value): (r: Option<bytes>)
    decreases cases, 0, 0
  {
    match cases
    case Otherwise(con) => Build(cs, con, ctx, v)
    case Case(k, con, rest) => if k == key then Build(cs, con, ctx, v) else BuildCase(cs, rest, key, ctx, v)
  }

  function BuildMany(cs: Codecs, item: Con, ctx: Context, items: seq<Value>): (r: Option<bytes>)
    decreases item, 1, |items|
  {
    if items == [] then Some([])
    else
      match Build(cs, item, ctx, items[0])
      case None => None
      case Some(out) =>
        match BuildMany(cs, item, ctx, items[1..])
        case None => None
        case Some(outs) => Some(out + outs)
  }
}
