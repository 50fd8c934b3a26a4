/** Fields of fixed width: they parse exactly where their bytes are. */
module WifiFixed {
  import opened Common
  import opened BitOrder
  import opened MacText
  import opened Construct
  import opened ConstructLaws
  import opened ConstructNames
  import opened WifiGrammar

  // ---- Leaves at an offset ------------------------------------------------------------------

  function MacOf(at: bytes, o: nat): Value {
    if o + 6 <= |at| then Text(FormatMac(at[o..o + 6])) else Nothing
  }

  lemma MacParses(cs: Codecs, ctx: Context, at: bytes, o: nat)
    requires o <= |at|
    ensures ParsesTo(cs, MacAddress, ctx, at, o, 6, MacOf(at, o))
  {
    if o + 6 <= |at| {
      assert at[o..][..6] == at[o..o + 6] && at[o..][6..] == at[o + 6..];
    }
  }

  function LittleOf(at: bytes, o: nat, width: nat): Value {
    if o + width <= |at| then Num(LittleEndian(at[o..o + width])) else Nothing
  }

  lemma LittleParses(cs: Codecs, ctx: Context, at: bytes, o: nat, width: nat)
    requires o <= |at|
    ensures ParsesTo(cs, IntLittle(width), ctx, at, o, width, LittleOf(at, o, width))
  {
    if o + width <= |at| {
      assert at[o..][..width] == at[o..o + width] && at[o..][width..] == at[o + width..];
    }
  }

  /** Sixteen bits with different names. */
  predicate Sixteen(bits: BitList) {
    BitWidth(bits) == 16 && Distinct(Names(bits))
  }

  function BitsOf(bits: BitList, swapped: bool, at: bytes, o: nat): Value
    requires Sixteen(bits)
  {
    if o + 2 <= |at| && ParseBits(bits, Stream(at[o..o + 2], swapped), map[]).Some?
    then Rec(ParseBits(bits, Stream(at[o..o + 2], swapped), map[]).value) else Nothing
  }

  lemma BitsParse(cs: Codecs, swapped: bool, bits: BitList, ctx: Context, at: bytes, o: nat)
    requires o <= |at| && Sixteen(bits)
    ensures ParsesTo(cs, Construct.BitStruct(swapped, bits), ctx, at, o, 2, BitsOf(bits, swapped, at, o))
    ensures o + 2 <= |at| ==> ParseBits(bits, Stream(at[o..o + 2], swapped), map[]).Some?
  {
    TwoBytesParse(cs, swapped, bits, ctx, at[o..]);
    if o + 2 <= |at| {
      assert at[o..][..2] == at[o..o + 2] && at[o..][2..] == at[o + 2..];
    }
  }

  function BigOf(at: bytes, o: nat, width: nat): Value {
    if o + width <= |at| then Num(BigEndian(at[o..o + width])) else Nothing
  }

  lemma BigParses(cs: Codecs, ctx: Context, at: bytes, o: nat, width: nat)
    requires o <= |at|
    ensures ParsesTo(cs, IntBig(width), ctx, at, o, width, BigOf(at, o, width))
  {
    if o + width <= |at| {
      assert at[o..][..width] == at[o..o + width] && at[o..][width..] == at[o + width..];
    }
  }

  function DataOf(at: bytes, o: nat, width: nat): Value {
    if o + width <= |at| then Data(at[o..o + width]) else Nothing
  }

  lemma DataParses(cs: Codecs, ctx: Context, at: bytes, o: nat, width: nat)
    requires o <= |at|
    ensures ParsesTo(cs, FixedBytes(Lit(width)), ctx, at, o, width, DataOf(at, o, width))
  {
    if o + width <= |at| {
      assert at[o..][..width] == at[o..o + width] && at[o..][width..] == at[o + width..];
    }
  }

  // ---- Fixed fields one after the other ----------------------------------------------------------

  predicate IsFixed(con: Con) {
    || con.IntLittle? || con.IntBig? || con.MacAddress? || (con.BitStruct? && Sixteen(con.bits))
    || (con.FixedBytes? && con.length.Lit? && con.length.n >= 0)
  }

  function FixedWidth(con: Con): nat
    requires IsFixed(con)
  {
    match con
    case IntLittle(width) => width
    case IntBig(width) => width
    case MacAddress => 6
    case BitStruct(_, _) => 2
    case FixedBytes(length) => length.n
  }

  function FixedValue(con: Con, at: bytes, o: nat): Value
    requires IsFixed(con)
  {
    match con
    case IntLittle(width) => LittleOf(at, o, width)
    case IntBig(width) => BigOf(at, o, width)
    case MacAddress => MacOf(at, o)
    case BitStruct(swapped, bits) => BitsOf(bits, swapped, at, o)
    case FixedBytes(length) => DataOf(at, o, length.n)
  }

  lemma FixedParses(cs: Codecs, con: Con, ctx: Context, at: bytes, o: nat)
    requires IsFixed(con) && o <= |at|
    ensures ParsesTo(cs, con, ctx, at, o, FixedWidth(con), FixedValue(con, at, o))
  {
    hide Parse, ParsesTo;
    match con
    case IntLittle(width) => LittleParses(cs, ctx, at, o, width);
    case IntBig(width) => BigParses(cs, ctx, at, o, width);
    case MacAddress => MacParses(cs, ctx, at, o);
    case BitStruct(swapped, bits) => BitsParse(cs, swapped, bits, ctx, at, o);
    case FixedBytes(length) => DataParses(cs, ctx, at, o, length.n);
  }

  /** Fixed fields of `n` bytes in all, then `rest`. */
  predicate FixedThen(fields: FieldList, n: nat, rest: FieldList) {
    || (n == 0 && fields == rest)
    || (fields.Field? && IsFixed(fields.con) && FixedWidth(fields.con) <= n
        && FixedThen(fields.rest, n - FixedWidth(fields.con), rest))
  }

  lemma FixedStep(fields: FieldList, n: nat, rest: FieldList)
    requires FixedThen(fields, n, rest) && !(n == 0 && fields == rest)
    ensures fields.Field? && IsFixed(fields.con) && FixedWidth(fields.con) <= n
    ensures FixedThen(fields.rest, n - FixedWidth(fields.con), rest)
  {
  }

  /** The record holds the fixed fields of the first `n` bytes at `o`, each out of its own bytes. */
  predicate FixedRead(scope: Scope, fields: FieldList, n: nat, at: bytes, o: nat) {
    || n == 0
    || (fields.Field? && IsFixed(fields.con) && FixedWidth(fields.con) <= n
        && fields.name in scope && scope[fields.name] == FixedValue(fields.con, at, o)
        && FixedRead(scope, fields.rest, n - FixedWidth(fields.con), at, o + FixedWidth(fields.con)))
  }

  lemma {:induction false} FixedReadStays(before: Scope, after: Scope, fields: FieldList, n: nat, at: bytes, o: nat)
    requires FixedRead(before, fields, n, at, o) && ExtendsScope(after, before)
    ensures FixedRead(after, fields, n, at, o)
    decreases fields
  {
    hide FixedValue;
    if n != 0 {
      FixedReadStays(before, after, fields.rest, n - FixedWidth(fields.con), at, o + FixedWidth(fields.con));
    }
  }

  /** Nothing but fields of these names was added. */
  ghost predicate AddsOnly(next: Scope, scope: Scope, fields: FieldList) {
    forall name :: name in next ==> name in scope || name in FieldNamesOf(fields)
  }

  lemma NothingRead(scope: Scope, fields: FieldList, at: bytes, o: nat)
    ensures FixedRead(scope, fields, 0, at, o) && ExtendsScope(scope, scope) && AddsOnly(scope, scope, fields)
  {
  }

  lemma OneMoreRead(scope: Scope, next: Scope, fields: FieldList, n: nat, at: bytes, o: nat)
    requires fields.Field? && IsFixed(fields.con) && FixedWidth(fields.con) <= n && fields.name !in scope
    requires ExtendsScope(next, scope[fields.name := FixedValue(fields.con, at, o)])
    requires FixedRead(next, fields.rest, n - FixedWidth(fields.con), at, o + FixedWidth(fields.con))
    requires AddsOnly(next, scope[fields.name := FixedValue(fields.con, at, o)], fields.rest)
    ensures FixedRead(next, fields, n, at, o) && ExtendsScope(next, scope) && AddsOnly(next, scope, fields)
  {
  }

  /** The fixed fields parse exactly when their bytes are there, and hand on to the rest. */
  lemma {:induction false} FixedThenParses(cs: Codecs, fields: FieldList, n: nat, rest: FieldList, ctx: Context, scope: Scope,
                                           at: bytes, o: nat) returns (next: Scope)
    requires FixedThen(fields, n, rest) && Unread(scope, fields) && o <= |at|
    ensures o + n > |at| ==> ParseFields(cs, fields, ctx, scope, at[o..]) == None
    ensures o + n <= |at| ==>
              && Unread(next, rest)
              && ExtendsScope(next, scope) && AddsOnly(next, scope, fields) && FixedRead(next, fields, n, at, o)
              && ParseFields(cs, fields, ctx, scope, at[o..]) == ParseFields(cs, rest, ctx, next, at[o + n..])
    decreases fields
  {
    hide *;
    next := scope;
    NothingRead(scope, fields, at, o);
    if !(n == 0 && fields == rest) {
      FixedStep(fields, n, rest);
      var w, v := FixedWidth(fields.con), FixedValue(fields.con, at, o);
      FixedParses(cs, fields.con, [scope] + ctx, at, o);
      FixedAt(cs, fields, w, v, ctx, scope, at, o, o + w);
      if o + w <= |at| {
        next := FixedThenParses(cs, fields.rest, n - w, rest, ctx, scope[fields.name := v], at, o + w);
        if o + n <= |at| {
          OneMoreRead(scope, next, fields, n, at, o);
        }
      }
    }
  }

  // One, two and three fixed fields before the rest.

  lemma OneFixed(f: FieldList)
    requires f.Field? && IsFixed(f.con)
    ensures FixedThen(f, FixedWidth(f.con), f.rest)
  {
    assert FixedThen(f.rest, 0, f.rest);
  }

  lemma TwoFixed(f: FieldList)
    requires f.Field? && f.rest.Field? && IsFixed(f.con) && IsFixed(f.rest.con)
    ensures FixedThen(f, FixedWidth(f.con) + FixedWidth(f.rest.con), f.rest.rest)
  {
    OneFixed(f.rest);
  }

  lemma ThreeFixed(f: FieldList)
    requires f.Field? && f.rest.Field? && f.rest.rest.Field?
    requires IsFixed(f.con) && IsFixed(f.rest.con) && IsFixed(f.rest.rest.con)
    ensures FixedThen(f, FixedWidth(f.con) + FixedWidth(f.rest.con) + FixedWidth(f.rest.rest.con), f.rest.rest.rest)
  {
    TwoFixed(f.rest);
  }

  lemma NumbersAreFixed(w: nat)
    ensures IsFixed(IntLittle(w)) && FixedWidth(IntLittle(w)) == w && IsFixed(MacAddress) && FixedWidth(MacAddress) == 6
    ensures IsFixed(IntBig(w)) && FixedWidth(IntBig(w)) == w
    ensures IsFixed(FixedBytes(Lit(w))) && FixedWidth(FixedBytes(Lit(w))) == w
  {
  }

  lemma InfoIsFixed()
    ensures IsFixed(CAPABILITY_INFO) && FixedWidth(CAPABILITY_INFO) == 2
  {
    CapabilityInfoNames();
  }
}
