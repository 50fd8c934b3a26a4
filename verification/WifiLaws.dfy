/** Whole frames: the rebuild check, and fields and bit fields one at a time. */
module WifiLaws {
  import opened Common
  import opened Bits
  import opened BitOrder
  import opened Construct
  import opened ConstructLaws
  import opened FieldNames
  import opened WifiGrammar

  function ParseFrame(cs: Codecs, input: bytes): Option<Parsed> {
    Parse(cs, FRAME, [], input)
  }

  function BuildFrame(cs: Codecs, frame: Value): Option<bytes> {
    Build(cs, FRAME, [], frame)
  }

  // ---- The rebuild check ------------------------------------------------------------------

  /**
   Every accepted frame builds, to a byte string as long as what was parsed, and to
   the parsed bytes themselves exactly when all its text fields rebuild.
   */
  lemma FrameRebuilds(cs: Codecs, input: bytes)
    requires Lawful(cs) && ParseFrame(cs, input).Some?
    ensures var p := ParseFrame(cs, input).value;
            Rebuilt(cs, input, p.rest, p.texts, BuildFrame(cs, p.value))
  {
    RoundTrip(cs, FRAME, [], [], input);
  }

  /** The check on every received packet, `build(parse(x)) == x`, passes exactly when nothing is left over and no text changed. */
  lemma RebuildCheckPassesExactlyWhen(cs: Codecs, input: bytes)
    requires Lawful(cs) && ParseFrame(cs, input).Some?
    ensures var p := ParseFrame(cs, input).value;
            BuildFrame(cs, p.value) == Some(input) <==> p.rest == [] && AllRebuild(cs, p.texts)
  {
    FrameRebuilds(cs, input);
    assert input[..|input|] == input;
  }

  // ---- Fields one by one ------------------------------------------------------------------------

  lemma FieldStep(cs: Codecs, name: Name, con: Con, rest: FieldList, ctx: Context, scope: Scope, input: bytes)
    returns (p: Parsed, q: ParsedFields)
    requires ParseFields(cs, Field(name, con, rest), ctx, scope, input).Some?
    ensures name !in scope
    ensures Parse(cs, con, [scope] + ctx, input) == Some(p)
    ensures ParseFields(cs, rest, ctx, scope[name := p.value], p.rest) == Some(q)
    ensures ParseFields(cs, Field(name, con, rest), ctx, scope, input).value
         == ParsedFields(q.scope, q.rest, p.texts + q.texts)
  {
    p := Parse(cs, con, [scope] + ctx, input).value;
    q := ParseFields(cs, rest, ctx, scope[name := p.value], p.rest).value;
  }

  lemma Chooses(cs: Codecs, cond: Expr, thn: Con, els: Con, ctx: Context, input: bytes, b: bool)
    requires Eval(ctx, cond) == Some(Truth(b))
    ensures Parse(cs, IfThenElse(cond, thn, els), ctx, input) == if b then Parse(cs, thn, ctx, input) else Parse(cs, els, ctx, input)
  {
  }

  lemma Switches(cs: Codecs, key: Expr, cases: Cases, ctx: Context, input: bytes, k: int)
    requires Eval(ctx, key) == Some(k)
    ensures Parse(cs, Switch(key, cases), ctx, input) == ParseCase(cs, cases, k, ctx, input)
  {
  }

  lemma ControlField(scope: Scope, name: Name)
    requires FrameControl in scope && scope[FrameControl].Rec?
    ensures Eval([scope], Ref(0, [FrameControl, name]))
         == if name in scope[FrameControl].fields && scope[FrameControl].fields[name].Num?
            then Some(scope[FrameControl].fields[name].n) else None
  {
    var path, fields := [FrameControl, name], scope[FrameControl].fields;
    assert path[1..] == [name];
    assert Lookup(scope, path) == Lookup(fields, [name]);
  }

  /** The record holds this number under this name. */
  predicate Says(scope: Scope, name: Name, n: int) {
    name in scope && scope[name] == Num(n)
  }

  // ---- Bit fields ----------------------------------------------------------------------------------

  /** The `i`-th field of a bit struct, with what follows it, and its offset. */
  function Nth(bits: BitList, i: nat): BitList {
    if i == 0 || bits.NoBits? then bits else Nth(bits.rest, i - 1)
  }

  function OffsetOf(bits: BitList, i: nat): nat {
    if i == 0 || bits.NoBits? then 0 else bits.width + OffsetOf(bits.rest, i - 1)
  }

  /** The `i`-th field is `name`, at offset `o` with width `w`. */
  predicate Located(bits: BitList, i: nat, name: Name, o: nat, w: nat, flip: bool) {
    var f := Nth(bits, i);
    f.Bits? && f.name == name && f.width == w && f.flip == flip && OffsetOf(bits, i) == o
  }

  lemma SliceOfDrop(s: seq<bit>, d: nat, o: nat, w: nat)
    requires d + o + w <= |s|
    ensures s[d..][o..o + w] == s[d + o..d + o + w]
  {
  }

  lemma {:induction false} BitFieldValue(bits: BitList, s: seq<bit>, scope: Scope, i: nat, name: Name, o: nat, w: nat, flip: bool)
    requires |s| == BitWidth(bits) && ParseBits(bits, s, scope).Some? && Located(bits, i, name, o, w, flip)
    ensures o + w <= |s|
    ensures var r := ParseBits(bits, s, scope).value;
            name in r && r[name] == Num(FieldOfBits(s[o..o + w], flip))
    decreases bits
  {
    var scope' := scope[bits.name := Num(FieldOfBits(s[..bits.width], bits.flip))];
    if i == 0 {
      ParseBitsKeeps(bits.rest, s[bits.width..], scope', name);
      assert s[0..bits.width] == s[..bits.width];
    } else {
      BitFieldValue(bits.rest, s[bits.width..], scope', i - 1, name, o - bits.width, w, flip);
      SliceOfDrop(s, bits.width, o - bits.width, w);
    }
  }

  /** A field of a byte-swapped bit struct, flipped or one bit wide, is a shift-and-mask slice of the little-endian integer. */
  lemma SwappedBitField(bits: BitList, data: bytes, i: nat, name: Name, o: nat, w: nat, flip: bool)
    requires 8 * |data| == BitWidth(bits) && ParseBits(bits, Stream(data, true), map[]).Some?
    requires Located(bits, i, name, o, w, flip) && (flip || w == 1)
    ensures var r := ParseBits(bits, Stream(data, true), map[]).value;
            name in r && r[name] == Num(LowBits(ShiftRight(LittleEndian(data), o), w))
  {
    BitFieldValue(bits, Stream(data, true), map[], i, name, o, w, flip);
    var s := Stream(data, true)[o..o + w];
    FlippedFieldIsShiftAndMask(data, o, w);
    if !flip {
      assert s == [s[0]];
      FlipOne(s[0]);
    }
  }

  lemma FlipOne(b: bit)
    ensures Flip(FromBits([b]), 1) == FromBits([b]) == b
  {
    assert [b][..0] == [] && [b][1..] == [];
    assert ToBits(b, 1) == [b];
  }
}
